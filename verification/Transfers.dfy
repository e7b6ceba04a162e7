/** The system calls and the loops around them, as functions of what the system will answer: arbitrary finite
    scripts of short counts, interruptions and failures. */
module Transfers {
  import opened BitStrings

  /** std::error_code; Clear is the default value. */
  datatype Errc = Clear | InvalidArgument | ConnectionReset | BadMessage | FilenameTooLong | NoSuchFile
                | IoError | PermissionDenied | NotADirectory | BadDescriptor | SystemError(errno: int)

  const EINTR := 4

  /** How the operating system answers one call: it moves some bytes, is interrupted, or fails. */
  datatype Answer = Moves(n: nat) | Interrupted | Fails(errno: int)

  const INT_MAX := 0x7FFF_FFFF
  const CHUNK := 0x10_0000        // 1 MiB
  const PORTABLE_CHUNK := 0x40_0000  // 4 MiB

  /** No failure, no interruption, and every call makes progress. */
  predicate Steady(script: seq<Answer>) {
    forall i :: 0 <= i < |script| ==> script[i].Moves? && script[i].n > 0
  }

  /** No failure: every call is interrupted or makes progress. */
  predicate Live(script: seq<Answer>) {
    forall i :: 0 <= i < |script| ==> script[i].Interrupted? || (script[i].Moves? && script[i].n > 0)
  }

  lemma SteadyIsLive(script: seq<Answer>)
    ensures Steady(script) ==> Live(script)
  {
  }

  function Min(a: nat, b: nat): nat {
    if a < b then a else b
  }

  function Slice(s: seq<byte>, lo: nat, hi: nat): seq<byte> {
    if lo <= hi <= |s| then s[lo..hi] else []
  }

  lemma SliceEmpty(s: seq<byte>, lo: nat)
    ensures Slice(s, lo, lo) == []
  {
  }

  lemma SliceExtends(s: seq<byte>, lo: nat, mid: nat, hi: nat)
    requires lo <= mid <= hi <= |s|
    ensures Slice(s, lo, mid) + s[mid..hi] == Slice(s, lo, hi)
  {
    assert s[lo..mid] + s[mid..hi] == s[lo..hi];
  }

  lemma SliceIs(s: seq<byte>, lo: nat, hi: nat)
    requires lo <= hi <= |s|
    ensures Slice(s, lo, hi) == s[lo..hi]
  {
  }

  // ---- sending ----

  /** The count of a call, narrowed to int as the code narrows it. */
  function Narrow(n: nat): (r: int)
    ensures r <= n && (n <= INT_MAX ==> r == n)
  {
    var low := n % 0x1_0000_0000;
    if low <= INT_MAX then low else low - 0x1_0000_0000
  }

  /** The sending half of a socket: every byte the kernel has accepted, and its coming answers. */
  datatype Io = Io(sent: seq<byte>, script: seq<Answer>)

  datatype Done = Done(ok: bool, ec: Errc, io: Io)

  /** One call: the count or -1, the error number of a failure, and the state after it. */
  datatype SendCall = SendCall(n: int, errno: int, io: Io)

  datatype ReadCall = ReadCall(n: int, errno: int, answers: seq<Answer>)

  function SendOnce(io: Io, data: seq<byte>): SendCall {
    if io.script == [] then SendCall(|data|, 0, Io(io.sent + data, []))
    else match io.script[0]
      case Interrupted => SendCall(-1, EINTR, Io(io.sent, io.script[1..]))
      case Fails(e) => SendCall(-1, e, Io(io.sent, io.script[1..]))
      case Moves(k) => SendCall(Min(k, |data|), 0, Io(io.sent + data[..Min(k, |data|)], io.script[1..]))
  }

  function PushAll(io: Io, data: seq<byte>, ec: Errc): Done
    decreases |data|
  {
    if data == [] then Done(true, ec, io)
    else
      var c := SendOnce(io, data);
      if c.n < 0 then Done(false, SystemError(c.errno), c.io)
      else if Narrow(c.n) <= 0 then Done(false, ec, c.io)
      else PushAll(c.io, data[Narrow(c.n)..], ec)
  }

  /** One turn of the loop. */
  lemma PushStep(io: Io, data: seq<byte>, p: nat, ec: Errc, c: SendCall)
    requires p < |data| && c == SendOnce(io, data[p..])
    ensures c.n >= 0 ==> p + Narrow(c.n) <= |data|
    ensures PushAll(io, data[p..], ec) ==
            if c.n < 0 then Done(false, SystemError(c.errno), c.io)
            else if Narrow(c.n) <= 0 then Done(false, ec, c.io)
            else PushAll(c.io, data[p + Narrow(c.n)..], ec)
  {
    hide Narrow;
    if c.n >= 0 && Narrow(c.n) > 0 {
      assert data[p..][Narrow(c.n)..] == data[p + Narrow(c.n)..];
    }
  }

  lemma NothingToPush(io: Io, data: seq<byte>, ec: Errc)
    ensures PushAll(io, data[|data|..], ec) == Done(true, ec, io)
    ensures data[0..] == data
  {
  }

  /** All of data has left, or on failure a proper prefix. */
  predicate Pushed(d: Done, io: Io, data: seq<byte>, ec: Errc) {
    if d.ok then d.io.sent == io.sent + data && d.ec == ec
    else io.sent <= d.io.sent < io.sent + data && (d.ec == ec || d.ec.SystemError?)
  }

  lemma PushedMore(d: Done, io: Io, io': Io, data: seq<byte>, n: nat, ec: Errc)
    requires n <= |data| && io'.sent == io.sent + data[..n] && Pushed(d, io', data[n..], ec)
    ensures Pushed(d, io, data, ec)
  {
    assert io.sent + data == io'.sent + data[n..];
    assert io.sent <= io'.sent;
  }

  lemma PushedNothing(io: Io, ec: Errc)
    ensures Pushed(Done(true, ec, io), io, [], ec)
  {
    assert io.sent + [] == io.sent;
  }

  lemma FailedAtOnce(d: Done, io: Io, data: seq<byte>, ec: Errc)
    requires data != [] && !d.ok && d.io.sent == io.sent && (d.ec == ec || d.ec.SystemError?)
    ensures Pushed(d, io, data, ec)
  {
    assert io.sent < io.sent + data;
  }

  lemma SentByCall(io: Io, data: seq<byte>)
    ensures var c := SendOnce(io, data);
            -1 <= c.n <= |data| && c.io.sent == io.sent + (if c.n > 0 then data[..c.n] else []) &&
            |c.io.script| <= |io.script| && (Steady(io.script) ==> Steady(c.io.script) && (data != [] ==> c.n > 0))
  {
  }

  /** Up to 2 GiB, what a full send leaves is what it says it leaves; without failures all of it. */
  lemma {:induction false} PushAllMeaning(io: Io, data: seq<byte>, ec: Errc)
    requires |data| <= INT_MAX
    ensures Pushed(PushAll(io, data, ec), io, data, ec)
    ensures Steady(io.script) ==> PushAll(io, data, ec).ok && Steady(PushAll(io, data, ec).io.script)
    decreases |data|
  {
    hide SendOnce, Steady, Pushed, Narrow;
    if data == [] {
      PushedNothing(io, ec);
    } else {
      var c := SendOnce(io, data);
      SentByCall(io, data);
      if c.n > 0 {
        PushAllMeaning(c.io, data[c.n..], ec);
        PushedMore(PushAll(c.io, data[c.n..], ec), io, c.io, data, c.n, ec);
      } else {
        FailedAtOnce(PushAll(io, data, ec), io, data, ec);
      }
    }
  }

  lemma NarrowRest(n: nat)
    requires Narrow(n) > 0
    ensures Narrow(n - Narrow(n)) == 0
  {
  }

  /** The bound is exact: a kernel that takes everything in one call is believed exactly up to 2 GiB. Beyond,
      all of the data has left and the send fails. */
  lemma PushAllAtOnce(io: Io, data: seq<byte>, ec: Errc)
    requires io.script == []
    ensures var d := PushAll(io, data, ec);
            (d.ok <==> |data| <= 0x7FFF_FFFF) && (!d.ok ==> io.sent + data <= d.io.sent && d.ec == ec)
  {
    if |data| <= INT_MAX {
      PushAllMeaning(io, data, ec);
    } else if Narrow(|data|) > 0 {
      var n := Narrow(|data|);
      NarrowRest(|data|);
      hide Narrow;
      var later := SendOnce(io, data).io;
      assert PushAll(io, data, ec) == PushAll(later, data[n..], ec);
      assert PushAll(later, data[n..], ec) == Done(false, ec, Io(later.sent + data[n..], []));
    }
  }

  // ---- reading and copying files ----

  /** pread: the count, or -1 and the error number; 0 only at the end of the file. */
  function ReadOnce(content: seq<byte>, readable: bool, answers: seq<Answer>, want: nat, offset: nat): ReadCall {
    var left := if offset < |content| then |content| - offset else 0;
    if !readable then ReadCall(-1, 21, answers)
    else if answers == [] then ReadCall(Min(want, left), 0, [])
    else match answers[0]
      case Interrupted => ReadCall(-1, EINTR, answers[1..])
      case Fails(e) => ReadCall(-1, e, answers[1..])
      case Moves(k) => ReadCall(Min(if k == 0 then want else Min(k, want), left), 0, answers[1..])
  }

  function SendfileOnce(io: Io, content: seq<byte>, readable: bool, offset: nat, want: nat): SendCall {
    var left := if offset < |content| then |content| - offset else 0;
    if !readable then SendCall(-1, 22, io)
    else if io.script == [] then
      SendCall(Min(want, left), 0, Io(io.sent + Slice(content, offset, offset + Min(want, left)), []))
    else match io.script[0]
      case Interrupted => SendCall(-1, EINTR, Io(io.sent, io.script[1..]))
      case Fails(e) => SendCall(-1, e, Io(io.sent, io.script[1..]))
      case Moves(k) =>
        var n := Min(Min(k, want), left);
        SendCall(n, 0, Io(io.sent + Slice(content, offset, offset + n), io.script[1..]))
  }

  /** The Linux loop: what it leaves, and the offset it reports. */
  function KernelRun(io: Io, content: seq<byte>, readable: bool, off: nat, remaining: nat, ec: Errc): (Done, nat)
    decreases remaining, |io.script|
  {
    if remaining == 0 then (Done(true, ec, io), off)
    else
      var c := SendfileOnce(io, content, readable, off, Min(0x4000_0000, remaining));
      if c.n < 0 && c.errno == EINTR then KernelRun(c.io, content, readable, off, remaining, ec)
      else if c.n < 0 then (Done(false, SystemError(c.errno), c.io), off)
      else if c.n == 0 then (Done(false, IoError, c.io), off)
      else KernelRun(c.io, content, readable, off + c.n, remaining - c.n, ec)
  }

  /** The portable loop. */
  function CopyRun(io: Io, content: seq<byte>, readable: bool, answers: seq<Answer>, off: nat, remaining: nat, ec: Errc)
    : (Done, nat)
    decreases remaining, |answers|
  {
    if remaining == 0 then (Done(true, ec, io), off)
    else
      var c := ReadOnce(content, readable, answers, Min(remaining, PORTABLE_CHUNK), off);
      if c.n < 0 && c.errno == EINTR then CopyRun(io, content, readable, c.answers, off, remaining, ec)
      else if c.n < 0 then (Done(false, SystemError(c.errno), io), off)
      else if c.n == 0 then (Done(false, IoError, io), off)
      else
        var d := PushAll(io, Slice(content, off, off + c.n), ec);
        if !d.ok then (d, off) else CopyRun(d.io, content, readable, c.answers, off + c.n, remaining - c.n, d.ec)
  }

  /** Reading and sending in userspace. A file that ends too early is a failure without an error code. */
  function UserRun(io: Io, content: seq<byte>, readable: bool, answers: seq<Answer>, off: nat, remaining: nat, ec: Errc)
    : (Done, nat)
    decreases remaining
  {
    if remaining == 0 then (Done(true, ec, io), off)
    else
      var c := ReadOnce(content, readable, answers, Min(remaining, CHUNK), off);
      if c.n < 0 then (Done(false, IoError, io), off)
      else if c.n == 0 then (Done(false, ec, io), off)
      else
        var d := PushAll(io, Slice(content, off, off + c.n), ec);
        if !d.ok then (d, off) else UserRun(d.io, content, readable, c.answers, off + c.n, remaining - c.n, d.ec)
  }

  /** Reading a file for its checksum succeeds. */
  predicate ReadsThrough(content: seq<byte>, readable: bool, answers: seq<Answer>, off: nat, remaining: nat)
    decreases remaining
  {
    remaining == 0 ||
    var c := ReadOnce(content, readable, answers, Min(remaining, CHUNK), off);
    c.n >= 0 && (c.n > 0 ==> ReadsThrough(content, readable, c.answers, off + c.n, remaining - c.n))
  }

  // ---- one turn of each loop ----

  lemma KernelStep(io: Io, content: seq<byte>, readable: bool, off: nat, remaining: nat, ec: Errc, c: SendCall)
    requires remaining > 0 && c == SendfileOnce(io, content, readable, off, Min(0x4000_0000, remaining))
    ensures c.n <= remaining
    ensures KernelRun(io, content, readable, off, remaining, ec) ==
            if c.n < 0 && c.errno == EINTR then KernelRun(c.io, content, readable, off, remaining, ec)
            else if c.n < 0 then (Done(false, SystemError(c.errno), c.io), off)
            else if c.n == 0 then (Done(false, IoError, c.io), off)
            else KernelRun(c.io, content, readable, off + c.n, remaining - c.n, ec)
  {
  }

  lemma CopyStep(io: Io, content: seq<byte>, readable: bool, answers: seq<Answer>, off: nat, remaining: nat, ec: Errc,
                 c: ReadCall, d: Done)
    requires remaining > 0 && c == ReadOnce(content, readable, answers, Min(remaining, PORTABLE_CHUNK), off)
    requires c.n > 0 ==> d == PushAll(io, Slice(content, off, off + c.n), ec)
    ensures c.n <= remaining
    ensures CopyRun(io, content, readable, answers, off, remaining, ec) ==
            if c.n < 0 && c.errno == EINTR then CopyRun(io, content, readable, c.answers, off, remaining, ec)
            else if c.n < 0 then (Done(false, SystemError(c.errno), io), off)
            else if c.n == 0 then (Done(false, IoError, io), off)
            else if !d.ok then (d, off)
            else CopyRun(d.io, content, readable, c.answers, off + c.n, remaining - c.n, d.ec)
  {
    hide PushAll, Slice, ReadOnce;
    ReadByCall(content, readable, answers, Min(remaining, PORTABLE_CHUNK), off);
  }

  lemma NothingToCopy(io: Io, content: seq<byte>, readable: bool, answers: seq<Answer>, off: nat, ec: Errc)
    ensures CopyRun(io, content, readable, answers, off, 0, ec) == (Done(true, ec, io), off)
    ensures KernelRun(io, content, readable, off, 0, ec) == (Done(true, ec, io), off)
  {
  }

  lemma ReadsStep(content: seq<byte>, readable: bool, answers: seq<Answer>, off: nat, remaining: nat, c: ReadCall)
    requires remaining > 0 && c == ReadOnce(content, readable, answers, Min(remaining, CHUNK), off)
    ensures c.n <= remaining
    ensures ReadsThrough(content, readable, answers, off, remaining) <==>
            c.n >= 0 && (c.n > 0 ==> ReadsThrough(content, readable, c.answers, off + c.n, remaining - c.n))
  {
  }

  lemma UserStep(io: Io, content: seq<byte>, readable: bool, answers: seq<Answer>, off: nat, remaining: nat, ec: Errc,
                 c: ReadCall, d: Done)
    requires remaining > 0 && c == ReadOnce(content, readable, answers, Min(remaining, CHUNK), off)
    requires c.n > 0 ==> d == PushAll(io, Slice(content, off, off + c.n), ec)
    ensures c.n <= remaining
    ensures UserRun(io, content, readable, answers, off, remaining, ec) ==
            if c.n < 0 then (Done(false, IoError, io), off)
            else if c.n == 0 then (Done(false, ec, io), off)
            else if !d.ok then (d, off)
            else UserRun(d.io, content, readable, c.answers, off + c.n, remaining - c.n, d.ec)
  {
    hide PushAll, Slice;
    ReadByCall(content, readable, answers, Min(remaining, CHUNK), off);
    hide ReadOnce;
  }

  lemma NothingToRead(io: Io, content: seq<byte>, readable: bool, answers: seq<Answer>, off: nat, ec: Errc)
    ensures ReadsThrough(content, readable, answers, off, 0)
    ensures UserRun(io, content, readable, answers, off, 0, ec) == (Done(true, ec, io), off)
  {
  }

  // ---- what the copy loops leave ----

  /** What has left is content[off..left], on success all of the range. end is the offset that is reported; on
      failure less than slack more may have left. */
  predicate Transferred(d: Done, io: Io, content: seq<byte>, off: nat, remaining: nat, end: nat, slack: nat, ec: Errc) {
    |io.sent| <= |d.io.sent| &&
    var left := off + |d.io.sent| - |io.sent|;
    && off <= end <= left && left < end + slack && d.io.sent == io.sent + Slice(content, off, left)
    && (left > off ==> left <= |content|)
    && (if d.ok then end == left == off + remaining && d.ec == ec else left < off + remaining)
  }

  lemma TransferredMore(d: Done, io: Io, io': Io, content: seq<byte>, off: nat, n: nat, remaining: nat, end: nat,
                        slack: nat, ec: Errc)
    requires n <= remaining && off + n <= |content| && io'.sent == io.sent + content[off..off + n]
    requires Transferred(d, io', content, off + n, remaining - n, end, slack, ec)
    ensures Transferred(d, io, content, off, remaining, end, slack, ec)
  {
    var left := off + |d.io.sent| - |io.sent|;
    hide Slice;
    SliceIs(content, off, off + n);
    if left > off + n {
      SliceExtends(content, off, off + n, left);
      SliceIs(content, off + n, left);
    } else {
      SliceEmpty(content, off + n);
    }
  }

  lemma TransferredNone(d: Done, io: Io, content: seq<byte>, off: nat, remaining: nat, slack: nat, ec: Errc)
    requires slack > 0 && d.io.sent == io.sent && (d.ok <==> remaining == 0) && (d.ok ==> d.ec == ec)
    ensures Transferred(d, io, content, off, remaining, off, slack, ec)
  {
    SliceEmpty(content, off);
  }

  /** A chunk of which only a part has left. */
  lemma TransferredPart(d: Done, io: Io, content: seq<byte>, off: nat, n: nat, remaining: nat, slack: nat, ec: Errc)
    requires n <= remaining && n <= slack && off + n <= |content| && !d.ok
    requires io.sent <= d.io.sent < io.sent + content[off..off + n]
    ensures Transferred(d, io, content, off, remaining, off, slack, ec)
  {
    var left := off + |d.io.sent| - |io.sent|;
    assert d.io.sent == (io.sent + content[off..off + n])[..|d.io.sent|];
    assert d.io.sent == io.sent + content[off..left];
  }

  lemma SlackGrows(d: Done, io: Io, content: seq<byte>, off: nat, remaining: nat, end: nat, slack: nat, slack': nat,
                   ec: Errc)
    requires slack <= slack' && Transferred(d, io, content, off, remaining, end, slack, ec)
    ensures Transferred(d, io, content, off, remaining, end, slack', ec)
  {
  }

  lemma CopiedByCall(io: Io, content: seq<byte>, readable: bool, off: nat, want: nat)
    ensures var c := SendfileOnce(io, content, readable, off, want);
            c.n <= want && (c.n > 0 ==> off + c.n <= |content|) && |c.io.script| <= |io.script| &&
            c.io.sent == io.sent + (if c.n > 0 then content[off..off + c.n] else []) &&
            (Steady(io.script) ==> Steady(c.io.script)) &&
            (c.n < 0 && c.errno == EINTR ==> |c.io.script| < |io.script|)
  {
  }

  lemma ReadByCall(content: seq<byte>, readable: bool, answers: seq<Answer>, want: nat, off: nat)
    ensures var c := ReadOnce(content, readable, answers, want, off);
            c.n <= want && (c.n > 0 ==> off + c.n <= |content|) && |c.answers| <= |answers| &&
            (c.n < 0 && c.errno == EINTR ==> |c.answers| < |answers|)
  {
  }

  lemma {:induction false} KernelRunMeaning(io: Io, content: seq<byte>, readable: bool, off: nat, remaining: nat,
                                            ec: Errc)
    ensures var (d, end) := KernelRun(io, content, readable, off, remaining, ec);
            Transferred(d, io, content, off, remaining, end, 1, ec) && (Steady(io.script) ==> Steady(d.io.script))
    decreases remaining, |io.script|
  {
    hide KernelRun, SendfileOnce, Steady, Transferred;
    if remaining == 0 {
      NothingToCopy(io, content, readable, [], off, ec);
      TransferredNone(Done(true, ec, io), io, content, off, 0, 1, ec);
    } else {
      var want := Min(0x4000_0000, remaining);
      var c := SendfileOnce(io, content, readable, off, want);
      CopiedByCall(io, content, readable, off, want);
      KernelStep(io, content, readable, off, remaining, ec, c);
      if c.n < 0 && c.errno == EINTR {
        KernelRunMeaning(c.io, content, readable, off, remaining, ec);
        var (d, end) := KernelRun(c.io, content, readable, off, remaining, ec);
        SameStart(d, c.io, io, content, off, remaining, end, 1, ec);
      } else if c.n <= 0 {
        TransferredNone(KernelRun(io, content, readable, off, remaining, ec).0, io, content, off, remaining, 1, ec);
      } else {
        KernelRunMeaning(c.io, content, readable, off + c.n, remaining - c.n, ec);
        var (d, end) := KernelRun(c.io, content, readable, off + c.n, remaining - c.n, ec);
        TransferredMore(d, io, c.io, content, off, c.n, remaining, end, 1, ec);
      }
    }
  }

  lemma SameStart(d: Done, a: Io, b: Io, content: seq<byte>, off: nat, remaining: nat, end: nat, slack: nat, ec: Errc)
    requires a.sent == b.sent && Transferred(d, a, content, off, remaining, end, slack, ec)
    ensures Transferred(d, b, content, off, remaining, end, slack, ec)
  {
  }

  lemma {:induction false} CopyRunMeaning(io: Io, content: seq<byte>, readable: bool, answers: seq<Answer>, off: nat,
                                          remaining: nat, ec: Errc)
    ensures var (d, end) := CopyRun(io, content, readable, answers, off, remaining, ec);
            Transferred(d, io, content, off, remaining, end, 0x40_0000, ec) &&
            (Steady(io.script) ==> Steady(d.io.script))
    decreases remaining, |answers|
  {
    hide CopyRun, ReadOnce, Steady, Transferred, PushAll, Slice;
    if remaining == 0 {
      NothingToCopy(io, content, readable, answers, off, ec);
      TransferredNone(Done(true, ec, io), io, content, off, 0, PORTABLE_CHUNK, ec);
    } else {
      var want := Min(remaining, PORTABLE_CHUNK);
      var c := ReadOnce(content, readable, answers, want, off);
      ReadByCall(content, readable, answers, want, off);
      var d := PushAll(io, if c.n > 0 then Slice(content, off, off + c.n) else [], ec);
      CopyStep(io, content, readable, answers, off, remaining, ec, c, d);
      if c.n < 0 && c.errno == EINTR {
        CopyRunMeaning(io, content, readable, c.answers, off, remaining, ec);
      } else if c.n <= 0 {
        TransferredNone(CopyRun(io, content, readable, answers, off, remaining, ec).0, io, content, off, remaining,
                        PORTABLE_CHUNK, ec);
      } else {
        SliceIs(content, off, off + c.n);
        PushAllMeaning(io, content[off..off + c.n], ec);
        if d.ok {
          CopyRunMeaning(d.io, content, readable, c.answers, off + c.n, remaining - c.n, d.ec);
          var (e, end) := CopyRun(d.io, content, readable, c.answers, off + c.n, remaining - c.n, d.ec);
          TransferredMore(e, io, d.io, content, off, c.n, remaining, end, PORTABLE_CHUNK, ec);
        } else {
          TransferredPart(d, io, content, off, c.n, remaining, PORTABLE_CHUNK, ec);
        }
      }
    }
  }

  lemma {:induction false} UserRunMeaning(io: Io, content: seq<byte>, readable: bool, answers: seq<Answer>, off: nat,
                                          remaining: nat, ec: Errc)
    ensures var (d, end) := UserRun(io, content, readable, answers, off, remaining, ec);
            Transferred(d, io, content, off, remaining, end, 0x10_0000, ec) &&
            (Steady(io.script) ==> Steady(d.io.script))
    decreases remaining
  {
    hide UserRun, ReadOnce, Steady, Transferred, PushAll, Slice;
    if remaining == 0 {
      NothingToRead(io, content, readable, answers, off, ec);
      TransferredNone(Done(true, ec, io), io, content, off, 0, CHUNK, ec);
    } else {
      var want := Min(remaining, CHUNK);
      var c := ReadOnce(content, readable, answers, want, off);
      ReadByCall(content, readable, answers, want, off);
      var d := PushAll(io, if c.n > 0 then Slice(content, off, off + c.n) else [], ec);
      UserStep(io, content, readable, answers, off, remaining, ec, c, d);
      if c.n <= 0 {
        var none := UserRun(io, content, readable, answers, off, remaining, ec).0;
        TransferredNone(none, io, content, off, remaining, CHUNK, ec);
      } else {
        SliceIs(content, off, off + c.n);
        PushAllMeaning(io, content[off..off + c.n], ec);
        if d.ok {
          UserRunMeaning(d.io, content, readable, c.answers, off + c.n, remaining - c.n, d.ec);
          var (e, end) := UserRun(d.io, content, readable, c.answers, off + c.n, remaining - c.n, d.ec);
          TransferredMore(e, io, d.io, content, off, c.n, remaining, end, CHUNK, ec);
        } else {
          TransferredPart(d, io, content, off, c.n, remaining, CHUNK, ec);
        }
      }
    }
  }

  // ---- without failures ----

  function Available(content: seq<byte>, off: nat): nat {
    if off <= |content| then |content| - off else 0
  }

  /** What a copy loop leaves that meets no failure: all there is of the range. */
  predicate CopiedRange(d: Done, io: Io, content: seq<byte>, off: nat, remaining: nat, ec: Errc, shortEc: Errc) {
    var m := Min(remaining, Available(content, off));
    d.io.sent == io.sent + Slice(content, off, off + m) && (d.ok <==> m == remaining) &&
    d.ec == (if d.ok then ec else shortEc)
  }

  lemma RangeIsThere(d: Done, io: Io, content: seq<byte>, off: nat, remaining: nat, ec: Errc)
    requires remaining > 0 && CopiedRange(d, io, content, off, remaining, ec, IoError)
    ensures d.ok <==> off + remaining <= |content|
  {
  }

  lemma CopiedMore(d: Done, io: Io, io': Io, content: seq<byte>, off: nat, n: nat, remaining: nat, ec: Errc,
                   shortEc: Errc)
    requires off + n <= |content| && n <= remaining && io'.sent == io.sent + content[off..off + n]
    requires CopiedRange(d, io', content, off + n, remaining - n, ec, shortEc)
    ensures CopiedRange(d, io, content, off, remaining, ec, shortEc)
  {
    hide Slice;
    var end := off + Min(remaining, |content| - off);
    SliceIs(content, off, off + n);
    SliceIs(content, off + n, end);
    SliceExtends(content, off, off + n, end);
    AppendTwice(io.sent, content[off..off + n], content[off + n..end]);
  }

  lemma AppendTwice(a: seq<byte>, b: seq<byte>, c: seq<byte>)
    ensures a + b + c == a + (b + c)
  {
  }

  /** One call that meets no failure moves something, unless the file has ended. */
  predicate Moved(n: int, content: seq<byte>, off: nat, want: nat) {
    if off < |content| then 0 < n <= want && off + n <= |content| else n == 0
  }

  lemma SendfileLive(io: Io, content: seq<byte>, off: nat, want: nat)
    requires Live(io.script) && want > 0
    ensures var c := SendfileOnce(io, content, true, off, want);
            Live(c.io.script) && ((c.n < 0 && c.errno == EINTR) || Moved(c.n, content, off, want))
  {
  }

  lemma ReadLive(content: seq<byte>, answers: seq<Answer>, want: nat, off: nat)
    requires Live(answers) && want > 0
    ensures var c := ReadOnce(content, true, answers, want, off);
            Live(c.answers) && ((c.n < 0 && c.errno == EINTR) || Moved(c.n, content, off, want)) &&
            (Steady(answers) ==> Steady(c.answers) && c.n >= 0)
  {
  }

  lemma AtEnd(d: Done, io: Io, content: seq<byte>, off: nat, remaining: nat, ec: Errc, shortEc: Errc)
    requires remaining == 0 || off >= |content|
    requires d.io.sent == io.sent && (d.ok <==> remaining == 0) && d.ec == if d.ok then ec else shortEc
    ensures CopiedRange(d, io, content, off, remaining, ec, shortEc)
  {
    SliceEmpty(content, off);
  }

  lemma SameSent(d: Done, a: Io, b: Io, content: seq<byte>, off: nat, remaining: nat, ec: Errc, shortEc: Errc)
    requires a.sent == b.sent && CopiedRange(d, a, content, off, remaining, ec, shortEc)
    ensures CopiedRange(d, b, content, off, remaining, ec, shortEc)
  {
  }

  /** The kernel loop, interrupted any number of times, sends all there is of the range and succeeds exactly when
      that is the whole range. */
  lemma {:induction false} KernelLive(io: Io, content: seq<byte>, off: nat, remaining: nat, ec: Errc)
    requires Live(io.script)
    ensures CopiedRange(KernelRun(io, content, true, off, remaining, ec).0, io, content, off, remaining, ec, IoError)
    decreases remaining, |io.script|
  {
    hide KernelRun, CopiedRange, SendfileOnce, Live, Slice;
    if remaining == 0 {
      NothingToCopy(io, content, true, [], off, ec);
      AtEnd(Done(true, ec, io), io, content, off, remaining, ec, IoError);
    } else {
      var want := Min(0x4000_0000, remaining);
      var c := SendfileOnce(io, content, true, off, want);
      SendfileLive(io, content, off, want);
      CopiedByCall(io, content, true, off, want);
      KernelStep(io, content, true, off, remaining, ec, c);
      if c.n < 0 {
        KernelLive(c.io, content, off, remaining, ec);
        SameSent(KernelRun(c.io, content, true, off, remaining, ec).0, c.io, io, content, off, remaining, ec, IoError);
      } else if c.n == 0 {
        AtEnd(Done(false, IoError, c.io), io, content, off, remaining, ec, IoError);
      } else {
        KernelLive(c.io, content, off + c.n, remaining - c.n, ec);
        var d := KernelRun(c.io, content, true, off + c.n, remaining - c.n, ec).0;
        CopiedMore(d, io, c.io, content, off, c.n, remaining, ec, IoError);
      }
    }
  }

  /** So does the portable loop, whose reads may be interrupted; its sends may not. */
  lemma {:induction false} CopyLive(io: Io, content: seq<byte>, answers: seq<Answer>, off: nat, remaining: nat,
                                    ec: Errc)
    requires Steady(io.script) && Live(answers)
    ensures CopiedRange(CopyRun(io, content, true, answers, off, remaining, ec).0, io, content, off, remaining, ec,
                        IoError)
    decreases remaining, |answers|
  {
    hide CopyRun, CopiedRange, PushAll, ReadOnce, Steady, Live, Slice;
    if remaining == 0 {
      NothingToCopy(io, content, true, answers, off, ec);
      AtEnd(Done(true, ec, io), io, content, off, remaining, ec, IoError);
    } else {
      var want := Min(remaining, PORTABLE_CHUNK);
      var c := ReadOnce(content, true, answers, want, off);
      ReadLive(content, answers, want, off);
      ReadByCall(content, true, answers, want, off);
      var d := PushAll(io, if c.n > 0 then Slice(content, off, off + c.n) else [], ec);
      CopyStep(io, content, true, answers, off, remaining, ec, c, d);
      if c.n < 0 {
        CopyLive(io, content, c.answers, off, remaining, ec);
      } else if c.n == 0 {
        AtEnd(Done(false, IoError, io), io, content, off, remaining, ec, IoError);
      } else {
        SliceIs(content, off, off + c.n);
        PushAllMeaning(io, content[off..off + c.n], ec);
        CopyLive(d.io, content, c.answers, off + c.n, remaining - c.n, ec);
        var e := CopyRun(d.io, content, true, c.answers, off + c.n, remaining - c.n, ec).0;
        CopiedMore(e, io, d.io, content, off, c.n, remaining, ec, IoError);
      }
    }
  }

  /** And the userspace loop, which retries nothing. */
  lemma {:induction false} UserSteady(io: Io, content: seq<byte>, answers: seq<Answer>, off: nat, remaining: nat,
                                      ec: Errc)
    requires Steady(io.script) && Steady(answers)
    ensures CopiedRange(UserRun(io, content, true, answers, off, remaining, ec).0, io, content, off, remaining, ec, ec)
    decreases remaining
  {
    hide UserRun, CopiedRange, PushAll, ReadOnce, Steady, Live, Slice;
    if remaining == 0 {
      NothingToRead(io, content, true, answers, off, ec);
      AtEnd(Done(true, ec, io), io, content, off, remaining, ec, ec);
    } else {
      var want := Min(remaining, CHUNK);
      var c := ReadOnce(content, true, answers, want, off);
      SteadyIsLive(answers);
      ReadLive(content, answers, want, off);
      ReadByCall(content, true, answers, want, off);
      var d := PushAll(io, if c.n > 0 then Slice(content, off, off + c.n) else [], ec);
      UserStep(io, content, true, answers, off, remaining, ec, c, d);
      if c.n == 0 {
        AtEnd(Done(false, ec, io), io, content, off, remaining, ec, ec);
      } else {
        SliceIs(content, off, off + c.n);
        PushAllMeaning(io, content[off..off + c.n], ec);
        UserSteady(d.io, content, c.answers, off + c.n, remaining - c.n, ec);
        var e := UserRun(d.io, content, true, c.answers, off + c.n, remaining - c.n, ec).0;
        CopiedMore(e, io, d.io, content, off, c.n, remaining, ec, ec);
      }
    }
  }

  // ---- how failures are reported ----

  /** A failing send call is reported by its error number, also an interruption (4); one that moves nothing leaves the
      error code as it was. */
  lemma SendFailureReported(io: Io, data: seq<byte>, ec: Errc)
    requires data != [] && io.script != []
    ensures var later := Io(io.sent, io.script[1..]);
            match io.script[0]
            case Fails(e) => PushAll(io, data, ec) == Done(false, SystemError(e), later)
            case Interrupted => PushAll(io, data, ec) == Done(false, SystemError(4), later)
            case Moves(n) => n == 0 ==> PushAll(io, data, ec) == Done(false, ec, later)
  {
    assert io.sent + data[..0] == io.sent;
  }

  /** sendfile is called again after an interruption; another failure is reported by its number, and a source that
      cannot be read is invalid (22). */
  lemma KernelFailureReported(io: Io, content: seq<byte>, readable: bool, off: nat, remaining: nat, ec: Errc)
    requires remaining > 0
    ensures var r := KernelRun(io, content, readable, off, remaining, ec);
            if !readable then r == (Done(false, SystemError(22), io), off)
            else if io.script == [] then true
            else
              var later := Io(io.sent, io.script[1..]);
              match io.script[0]
              case Fails(e) =>
                r == if e == 4 then KernelRun(later, content, true, off, remaining, ec)
                     else (Done(false, SystemError(e), later), off)
              case Interrupted => r == KernelRun(later, content, true, off, remaining, ec)
              case Moves(n) => n == 0 ==> r == (Done(false, IoError, later), off)
  {
    SliceEmpty(content, off);
    assert io.sent + [] == io.sent;
  }

  /** So it is with the reads of the portable loop; a source that cannot be read is a directory (21). */
  lemma CopyFailureReported(io: Io, content: seq<byte>, readable: bool, answers: seq<Answer>, off: nat, remaining: nat,
                            ec: Errc)
    requires remaining > 0
    ensures var r := CopyRun(io, content, readable, answers, off, remaining, ec);
            if !readable then r == (Done(false, SystemError(21), io), off)
            else if answers == [] then true
            else match answers[0]
              case Fails(e) =>
                r == if e == 4 then CopyRun(io, content, true, answers[1..], off, remaining, ec)
                     else (Done(false, SystemError(e), io), off)
              case Interrupted => r == CopyRun(io, content, true, answers[1..], off, remaining, ec)
              case Moves(_) => true
  {
    hide PushAll, Slice;
  }

  /** The userspace loop reports every failing read, an interruption too, as io_error. */
  lemma UserFailureReported(io: Io, content: seq<byte>, readable: bool, answers: seq<Answer>, off: nat, remaining: nat,
                            ec: Errc)
    requires remaining > 0 && (!readable || (answers != [] && !answers[0].Moves?))
    ensures UserRun(io, content, readable, answers, off, remaining, ec) == (Done(false, IoError, io), off)
    ensures !ReadsThrough(content, readable, answers, off, remaining)
  {
    hide PushAll, Slice;
  }

  // ---- how much one call asks for ----

  /** After a call that moves all it was asked for, a failure is reported: sendfile is asked for at most 1 GiB, the
      reads of the portable loop for at most 4 MiB, those of the userspace loop for at most 1 MiB. */
  lemma KernelAsksForGibibyte(sent: seq<byte>, content: seq<byte>, remaining: nat, k: nat, e: int, ec: Errc)
    requires 0x4000_0000 < remaining <= k && remaining <= |content| && e != 4
    ensures KernelRun(Io(sent, [Moves(k), Fails(e)]), content, true, 0, remaining, ec) ==
            (Done(false, SystemError(e), Io(sent + content[..0x4000_0000], [])), 0x4000_0000)
  {
    hide KernelRun, SendfileOnce;
    var io, later := Io(sent, [Moves(k), Fails(e)]), Io(sent + content[..0x4000_0000], [Fails(e)]);
    assert io.script == [Moves(k)] + [Fails(e)] && later.script[1..] == [];
    FullCall(sent, content, 0x4000_0000, k, [Fails(e)]);
    KernelStep(io, content, true, 0, remaining, ec, SendfileOnce(io, content, true, 0, 0x4000_0000));
    KernelFailureReported(later, content, true, 0x4000_0000, remaining - 0x4000_0000, ec);
  }

  lemma FullCall(sent: seq<byte>, content: seq<byte>, want: nat, k: nat, later: seq<Answer>)
    requires want <= k && want <= |content|
    ensures SendfileOnce(Io(sent, [Moves(k)] + later), content, true, 0, want) ==
            SendCall(want, 0, Io(sent + content[..want], later))
  {
    assert ([Moves(k)] + later)[1..] == later;
    SliceIs(content, 0, want);
    assert content[0..want] == content[..want];
  }

  lemma FullRead(content: seq<byte>, want: nat, k: nat, later: seq<Answer>)
    requires 0 < want <= k && want <= |content|
    ensures ReadOnce(content, true, [Moves(k)] + later, want, 0) == ReadCall(want, 0, later)
  {
    assert ([Moves(k)] + later)[1..] == later;
  }

  lemma CopyAsksForFourMebibytes(sent: seq<byte>, content: seq<byte>, remaining: nat, k: nat, e: int, ec: Errc)
    requires 0x40_0000 < remaining <= k && remaining <= |content| && e != 4
    ensures CopyRun(Io(sent, []), content, true, [Moves(k), Fails(e)], 0, remaining, ec) ==
            (Done(false, SystemError(e), Io(sent + content[..0x40_0000], [])), 0x40_0000)
  {
    hide CopyRun, ReadOnce, PushAll;
    var chunk, io := content[..0x40_0000], Io(sent, []);
    assert [Moves(k), Fails(e)] == [Moves(k)] + [Fails(e)];
    FullRead(content, 0x40_0000, k, [Fails(e)]);
    SliceIs(content, 0, 0x40_0000);
    PushedAtOnce(sent, chunk, ec);
    CopyStep(io, content, true, [Moves(k), Fails(e)], 0, remaining, ec,
             ReadOnce(content, true, [Moves(k), Fails(e)], 0x40_0000, 0), PushAll(io, chunk, ec));
    CopyFailureReported(Io(sent + chunk, []), content, true, [Fails(e)], 0x40_0000, remaining - 0x40_0000, ec);
  }

  lemma UserAsksForMebibyte(sent: seq<byte>, content: seq<byte>, remaining: nat, k: nat, e: int, ec: Errc)
    requires 0x10_0000 < remaining <= k && remaining <= |content|
    ensures UserRun(Io(sent, []), content, true, [Moves(k), Fails(e)], 0, remaining, ec) ==
            (Done(false, IoError, Io(sent + content[..0x10_0000], [])), 0x10_0000)
  {
    hide UserRun, ReadOnce, PushAll;
    var chunk, io := content[..0x10_0000], Io(sent, []);
    assert [Moves(k), Fails(e)] == [Moves(k)] + [Fails(e)];
    FullRead(content, 0x10_0000, k, [Fails(e)]);
    SliceIs(content, 0, 0x10_0000);
    PushedAtOnce(sent, chunk, ec);
    UserStep(io, content, true, [Moves(k), Fails(e)], 0, remaining, ec,
             ReadOnce(content, true, [Moves(k), Fails(e)], 0x10_0000, 0), PushAll(io, chunk, ec));
    UserFailureReported(Io(sent + chunk, []), content, true, [Fails(e)], 0x10_0000, remaining - 0x10_0000, ec);
  }

  lemma PushedAtOnce(sent: seq<byte>, data: seq<byte>, ec: Errc)
    requires 0 < |data| <= INT_MAX
    ensures PushAll(Io(sent, []), data, ec) == Done(true, ec, Io(sent + data, []))
  {
    NothingToPush(Io(sent, []), data, ec);
    NothingToPush(Io(sent + data, []), data, ec);
    PushStep(Io(sent, []), data, 0, ec, SendOnce(Io(sent, []), data[0..]));
  }
}
