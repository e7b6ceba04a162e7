/** The connected byte stream and the open source file as the program uses them: single system calls, and the loops
    that hide their short counts. */
module Net {
  import opened BitStrings
  import opened Transfers

  /** An open descriptor of a file that does not change; a directory opens but cannot be read. */
  class SourceFile {
    const content: seq<byte>
    const readable: bool
    var answers: seq<Answer>

    constructor (content: seq<byte>, readable: bool, answers: seq<Answer>)
      ensures this.content == content && this.readable == readable && this.answers == answers
    {
      this.content := content;
      this.readable := readable;
      this.answers := answers;
    }

    /** pread: at most want bytes from offset; 0 at the end of the file, -1 on error. */
    method Pread(buf: array<byte>, want: nat, offset: nat) returns (n: int, errno: int)
      requires 0 < want <= buf.Length
      modifies this, buf
      ensures -1 <= n <= want
      ensures n > 0 ==> readable && offset + n <= |content| && buf[..n] == content[offset..offset + n]
      ensures n == 0 ==> readable && offset >= |content|
      ensures n >= 0 ==> readable
      ensures n < 0 && errno == EINTR ==> |answers| < |old(answers)|
      ensures |answers| <= |old(answers)|
      ensures ReadCall(n, errno, answers) == ReadOnce(content, readable, old(answers), want, offset)
      ensures Steady(old(answers)) ==> Steady(answers) && (readable ==> n >= 0)
    {
      n, errno := 0, 0;
      if !readable {
        return -1, 21;
      }
      var count := want;
      if |answers| > 0 {
        var answer := answers[0];
        answers := answers[1..];
        match answer {
          case Interrupted => return -1, EINTR;
          case Fails(e) => return -1, e;
          case Moves(k) => count := if k == 0 then want else Min(k, want);
        }
      }
      if offset < |content| {
        n := Min(count, |content| - offset);
        forall i | 0 <= i < n {
          buf[i] := content[offset + i];
        }
      }
    }
  }

  class Socket {
    var fd: int
    var sent: seq<byte>            // every byte the kernel has accepted
    var incoming: seq<byte>        // every byte the peer will still deliver
    var ending: Errc               // what follows them: Clear for an orderly close, else an error
    var sendScript: seq<Answer>
    var recvCounts: seq<nat>       // sizes of the next short reads
    ghost var marks: seq<nat>      // for each byte read so far, how many had been sent by then

    constructor (fd: int, incoming: seq<byte>, ending: Errc, sendScript: seq<Answer>, recvCounts: seq<nat>)
      ensures this.fd == fd && sent == [] && this.incoming == incoming && this.ending == ending
      ensures this.sendScript == sendScript && this.recvCounts == recvCounts && marks == []
    {
      this.fd := fd;
      this.sent := [];
      this.incoming := incoming;
      this.ending := ending;
      this.sendScript := sendScript;
      this.recvCounts := recvCounts;
      this.marks := [];
    }

    function Out(): Io
      reads this
    {
      Io(sent, sendScript)
    }

    /** The error a reader reports when the stream ends before it is satisfied. */
    function EndError(): (ec: Errc)
      reads this
      ensures ec == ConnectionReset || (ec == ending && ending != Clear)
    {
      if ending == Clear then ConnectionReset else ending
    }

    /** send: the count comes back narrowed to int, so it can be trusted up to 2 GiB. */
    method Send(data: seq<byte>, ec0: Errc) returns (n: int, ec: Errc)
      modifies `sent, `sendScript
      ensures var c := SendOnce(old(Out()), data);
              Out() == c.io && (c.n < 0 ==> n == -1 && ec == SystemError(c.errno)) &&
              (c.n >= 0 ==> n == Narrow(c.n) && ec == ec0)
    {
      ec := ec0;
      var count := |data|;
      if |sendScript| > 0 {
        var answer := sendScript[0];
        sendScript := sendScript[1..];
        match answer {
          case Interrupted => return -1, SystemError(EINTR);
          case Fails(e) => return -1, SystemError(e);
          case Moves(k) => count := Min(k, |data|);
        }
      }
      sent := sent + data[..count];
      n := Narrow(count);
    }

    /** recv into buf[at..at + len]: taken bytes arrive, and their number comes back narrowed to int; 0 when the
        peer has closed. */
    method Recv(buf: array<byte>, at: nat, len: nat, ec0: Errc) returns (n: int, ec: Errc, ghost taken: nat)
      requires at + len <= buf.Length
      modifies `incoming, `recvCounts, `marks, buf
      ensures taken <= len && taken <= |old(incoming)| && (taken > 0 <==> len > 0 && old(incoming) != [])
      ensures incoming == old(incoming)[taken..] && buf[at..at + taken] == old(incoming)[..taken]
      ensures marks == old(marks) + Repeat(|sent|, taken)
      ensures taken > 0 ==> n == Narrow(taken) && ec == ec0
      ensures len == 0 ==> n == 0 && ec == ec0
      ensures taken == 0 && len > 0 ==>
                if ending == Clear then n == 0 && ec == ec0 else n == -1 && ec == ending
      ensures old(recvCounts) == [] ==> recvCounts == [] && taken == Min(len, |old(incoming)|)
      ensures buf[..at] == old(buf[..at])
    {
      hide Narrow, Repeat;
      RepeatNone(|sent|);
      ec, taken := ec0, 0;
      if len == 0 {
        return 0, ec0, 0;
      }
      if incoming == [] {
        if ending == Clear {
          return 0, ec0, 0;
        }
        return -1, ending, 0;
      }
      var count := Min(len, |incoming|);
      if |recvCounts| > 0 {
        count := if 0 < recvCounts[0] < count then recvCounts[0] else count;
        recvCounts := recvCounts[1..];
      }
      forall i | 0 <= i < count {
        buf[at + i] := incoming[i];
      }
      incoming := incoming[count..];
      taken := count;
      marks := marks + Repeat(|sent|, taken);
      n := Narrow(count);
    }

    /** Push all of data. Up to 2 GiB, on failure only a proper prefix has left. */
    method SendAll(data: seq<byte>, ec0: Errc) returns (ok: bool, ec: Errc)
      modifies `sent, `sendScript
      ensures Done(ok, ec, Out()) == PushAll(old(Out()), data, ec0)
      ensures |data| <= INT_MAX && ok ==> sent == old(sent) + data && ec == ec0
      ensures |data| <= INT_MAX && !ok ==> old(sent) <= sent < old(sent) + data && (ec == ec0 || ec.SystemError?)
      ensures |data| <= INT_MAX && Steady(old(sendScript)) ==> ok && Steady(sendScript)
      ensures old(sendScript) == [] ==> (ok <==> |data| <= 0x7FFF_FFFF)
    {
      hide SendOnce, PushAll, Steady, Narrow;
      ec := ec0;
      var p: nat := 0;
      NothingToPush(Out(), data, ec);
      if |data| <= INT_MAX {
        PushAllMeaning(Out(), data, ec);
      }
      if sendScript == [] {
        PushAllAtOnce(Out(), data, ec);
      }
      while p < |data|
        invariant p <= |data| && ec == ec0
        invariant PushAll(Out(), data[p..], ec) == PushAll(old(Out()), data, ec0)
      {
        var n;
        PushStep(Out(), data, p, ec, SendOnce(Out(), data[p..]));
        n, ec := Send(data[p..], ec);
        if n <= 0 {
          return false, ec;
        }
        p := p + n;
      }
      NothingToPush(Out(), data, ec);
      return true, ec;
    }

    /** Fill buf[..len]: up to 2 GiB it succeeds exactly when that many bytes are still to come, however they are
        cut into pieces; missing is what it still waits for when they are not. Beyond, a stream that is not cut
        makes it fail. */
    method RecvAll(buf: array<byte>, len: nat, ec0: Errc) returns (ok: bool, ec: Errc, ghost missing: nat)
      requires len <= buf.Length
      modifies `incoming, `recvCounts, `marks, buf
      ensures len <= INT_MAX ==> (ok <==> len <= |old(incoming)|)
      ensures len <= INT_MAX && ok ==>
                buf[..len] == old(incoming)[..len] && incoming == old(incoming)[len..] && ec == ec0 && missing == 0
      ensures len <= INT_MAX && !ok ==> incoming == [] && ec == EndError() && missing == len - |old(incoming)|
      ensures !ok && len <= INT_MAX ==> ec == if ending == Clear then ConnectionReset else ending
      ensures len <= INT_MAX ==> marks == old(marks) + Repeat(|sent|, |old(incoming)| - |incoming|)
      ensures len > INT_MAX && old(recvCounts) == [] ==> !ok
    {
      hide Narrow, Doomed, Repeat;
      ec := ec0;
      var p: nat := 0;
      DoomedFromStart(len, incoming);
      RepeatNone(|sent|);
      while p < len
        invariant p <= len && ec == ec0
        invariant len <= INT_MAX ==>
                    p <= |old(incoming)| && buf[..p] == old(incoming)[..p] && incoming == old(incoming)[p..]
        invariant len <= INT_MAX ==> marks == old(marks) + Repeat(|sent|, p)
        invariant len > INT_MAX && old(recvCounts) == [] ==> recvCounts == [] && Doomed(len, p, incoming)
      {
        var n;
        ghost var taken;
        label before:
        n, ec, taken := Recv(buf, p, len - p, ec);
        if len > INT_MAX && old(recvCounts) == [] && n > 0 {
          StillDoomed(len, p, old@before(incoming), taken);
        }
        if n <= 0 {
          if n == 0 {
            ec := ConnectionReset;
          }
          return false, ec, len - p;
        }
        if len <= INT_MAX {
          TakenMore(buf[..], old(incoming), p, taken);
          RepeatConcat(old(marks), |sent|, p, n);
        }
        p := p + n;
      }
      return true, ec, 0;
    }

    /** One sendfile call. */
    method Sendfile(file: SourceFile, offset: nat, want: nat) returns (n: int, errno: int)
      requires want > 0
      modifies `sent, `sendScript
      ensures -1 <= n <= want
      ensures n > 0 ==> offset + n <= |file.content| && sent == old(sent) + file.content[offset..offset + n]
      ensures n <= 0 ==> sent == old(sent)
      ensures |sendScript| <= |old(sendScript)|
      ensures SendCall(n, errno, Out()) == SendfileOnce(old(Out()), file.content, file.readable, offset, want)
      ensures n < 0 && errno == EINTR ==> |sendScript| < |old(sendScript)|
      ensures Steady(old(sendScript)) ==> Steady(sendScript)
    {
      n, errno := 0, 0;
      if !file.readable {
        return -1, 22;
      }
      var count := want;
      if |sendScript| > 0 {
        var answer := sendScript[0];
        sendScript := sendScript[1..];
        match answer {
          case Interrupted => return -1, EINTR;
          case Fails(e) => return -1, e;
          case Moves(k) => count := Min(k, want);
        }
      }
      if offset < |file.content| {
        n := Min(count, |file.content| - offset);
        sent := sent + file.content[offset..offset + n];
      }
    }

    /** Kernel path: the offset always says how much has left, also on failure. */
    method SendFromFdLinux(file: SourceFile, offset0: nat, length: nat, ec0: Errc)
      returns (ok: bool, offset: nat, ec: Errc)
      modifies `sent, `sendScript
      ensures fd >= 0 || length > 0 ==>
                Transferred(Done(ok, ec, Out()), old(Out()), file.content, offset0, length, offset, 1, ec0)
      ensures (Done(ok, ec, Out()), offset) ==
              if fd < 0 then (Done(false, BadDescriptor, old(Out())), offset0)
              else KernelRun(old(Out()), file.content, file.readable, offset0, length, ec0)
      ensures fd >= 0 && Live(old(sendScript)) && file.readable && length > 0 ==>
                (ok <==> offset0 + length <= |file.content|)
      ensures Steady(old(sendScript)) ==> Steady(sendScript)
    {
      hide Slice, Steady, Live, KernelRun, SendfileOnce, Transferred, CopiedRange;
      offset, ec := offset0, ec0;
      NothingToCopy(Out(), file.content, file.readable, [], offset0, ec0);
      if fd < 0 {
        if length > 0 {
          TransferredNone(Done(false, BadDescriptor, Out()), Out(), file.content, offset0, length, 1, ec0);
        }
        return false, offset, BadDescriptor;
      }
      KernelRunMeaning(Out(), file.content, file.readable, offset0, length, ec0);
      if length == 0 {
        return true, offset, ec;
      }
      if Live(sendScript) && file.readable {
        KernelLive(Out(), file.content, offset0, length, ec0);
        RangeIsThere(KernelRun(Out(), file.content, true, offset0, length, ec0).0, Out(), file.content, offset0, length,
                     ec0);
      }
      var remaining: nat := length;
      var off: nat := offset0;
      while remaining > 0
        invariant ec == ec0
        invariant KernelRun(Out(), file.content, file.readable, off, remaining, ec) ==
                  KernelRun(old(Out()), file.content, file.readable, offset0, length, ec0)
        decreases remaining, |sendScript|
      {
        var want := Min(0x4000_0000, remaining);
        ghost var io := Out();
        var n, errno := Sendfile(file, off, want);
        KernelStep(io, file.content, file.readable, off, remaining, ec, SendCall(n, errno, Out()));
        if n < 0 {
          if errno == EINTR {
            continue;
          }
          return false, off, SystemError(errno);
        }
        if n == 0 {
          return false, off, IoError;
        }
        off := off + n;
        remaining := remaining - n;
      }
      NothingToCopy(Out(), file.content, file.readable, [], off, ec);
      return true, off, ec;
    }

    /** Userspace path: on failure up to one chunk more than the offset says may have left. */
    method SendFromFdPortable(file: SourceFile, offset0: nat, length: nat, ec0: Errc)
      returns (ok: bool, offset: nat, ec: Errc)
      modifies `sent, `sendScript, file
      ensures fd >= 0 || length > 0 ==>
                Transferred(Done(ok, ec, Out()), old(Out()), file.content, offset0, length, offset, 0x40_0000, ec0)
      ensures (Done(ok, ec, Out()), offset) ==
              if fd < 0 then (Done(false, BadDescriptor, old(Out())), offset0)
              else CopyRun(old(Out()), file.content, file.readable, old(file.answers), offset0, length, ec0)
      ensures fd >= 0 && Steady(old(sendScript)) && Live(old(file.answers)) && file.readable && length > 0 ==>
                (ok <==> offset0 + length <= |file.content|)
      ensures Steady(old(sendScript)) ==> Steady(sendScript)
    {
      hide Slice, Steady, Live, CopyRun, ReadOnce, PushAll, Transferred, CopiedRange;
      offset, ec := offset0, ec0;
      NothingToCopy(Out(), file.content, file.readable, file.answers, offset0, ec0);
      if fd < 0 {
        if length > 0 {
          TransferredNone(Done(false, BadDescriptor, Out()), Out(), file.content, offset0, length, PORTABLE_CHUNK, ec0);
        }
        return false, offset, BadDescriptor;
      }
      CopyRunMeaning(Out(), file.content, file.readable, file.answers, offset0, length, ec0);
      if length == 0 {
        return true, offset, ec;
      }
      if Steady(sendScript) && Live(file.answers) && file.readable {
        CopyLive(Out(), file.content, file.answers, offset0, length, ec0);
        RangeIsThere(CopyRun(Out(), file.content, true, file.answers, offset0, length, ec0).0, Out(), file.content,
                     offset0, length, ec0);
      }
      var buffer := new byte[PORTABLE_CHUNK];
      var remaining: nat := length;
      while remaining > 0
        invariant ec == ec0 && fresh(buffer)
        invariant CopyRun(Out(), file.content, file.readable, file.answers, offset, remaining, ec) ==
                  CopyRun(old(Out()), file.content, file.readable, old(file.answers), offset0, length, ec0)
        decreases remaining, |file.answers|
      {
        var want := Min(remaining, PORTABLE_CHUNK);
        ghost var io, answers := Out(), file.answers;
        var got, errno := file.Pread(buffer, want, offset);
        ghost var d := PushAll(io, if got > 0 then Slice(file.content, offset, offset + got) else [], ec);
        CopyStep(io, file.content, file.readable, answers, offset, remaining, ec, ReadCall(got, errno, file.answers),
                 d);
        if got < 0 {
          if errno == EINTR {
            continue;
          }
          return false, offset, SystemError(errno);
        }
        if got == 0 {
          return false, offset, IoError;
        }
        var pushed;
        SliceIs(file.content, offset, offset + got);
        pushed, ec := SendAll(buffer[..got], ec);
        if !pushed {
          return false, offset, ec;
        }
        offset := offset + got;
        remaining := remaining - got;
      }
      NothingToCopy(Out(), file.content, file.readable, file.answers, offset, ec);
      return true, offset, ec;
    }
  }

  function Repeat(k: nat, n: nat): (r: seq<nat>)
    ensures |r| == n && forall i :: 0 <= i < n ==> r[i] == k
  {
    seq(n, i => k)
  }

  lemma RepeatNone(k: nat)
    ensures Repeat(k, 0) == [] && forall s: seq<nat> :: s + Repeat(k, 0) == s
  {
    assert forall s: seq<nat> :: s + [] == s;
  }

  lemma RepeatConcat(s: seq<nat>, k: nat, m: nat, n: nat)
    ensures s + Repeat(k, m) + Repeat(k, n) == s + Repeat(k, m + n)
  {
  }

  lemma TakenMore(buf: seq<byte>, whole: seq<byte>, p: nat, n: nat)
    requires p + n <= |whole| && p + n <= |buf| && buf[..p] == whole[..p] && buf[p..p + n] == whole[p..][..n]
    ensures buf[..p + n] == whole[..p + n] && whole[p..][n..] == whole[p + n..]
  {
    assert buf[..p + n] == buf[..p] + buf[p..p + n];
    assert whole[..p + n] == whole[..p] + whole[p..][..n];
  }

  /** A read beyond 2 GiB that an uncut stream cannot satisfy: nothing has been counted yet, or what is missing is a
      multiple of the range of int, or the stream is exhausted. */
  predicate Doomed(len: nat, p: nat, incoming: seq<byte>) {
    p < len && (p == 0 || (len - p) % 0x1_0000_0000 == 0 || incoming == [])
  }

  lemma DoomedFromStart(len: nat, incoming: seq<byte>)
    ensures len > 0 ==> Doomed(len, 0, incoming)
    ensures forall p: nat, rest: seq<byte> :: Doomed(len, p, rest) ==> p < len
  {
  }

  lemma StillDoomed(len: nat, p: nat, incoming: seq<byte>, taken: nat)
    requires len > INT_MAX && p < len && taken <= |incoming| && Doomed(len, p, incoming)
    requires taken == Min(len - p, |incoming|) && Narrow(taken) > 0
    ensures Doomed(len, p + Narrow(taken), incoming[taken..])
  {
  }
}
