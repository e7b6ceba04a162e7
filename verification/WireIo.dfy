/** The codec as it runs: loops over byte buffers, and reads and writes on a socket. */
module WireIo {
  import opened BitStrings
  import opened LittleEndian
  import opened Crc32c
  import opened Wire
  import opened Transfers
  import opened Net

  // ---- integers in buffers ----

  /** out[at..at + n] has become b and nothing else has changed. */
  twostate predicate Patched(out: array<byte>, at: nat, b: seq<byte>)
    requires at + |b| <= out.Length
    reads out
  {
    out[..] == old(out[..])[..at] + b + old(out[..])[at + |b|..]
  }

  lemma PatchedSeq(before: seq<byte>, after: seq<byte>, at: nat, b: seq<byte>)
    requires |before| == |after| && at + |b| <= |before|
    requires forall k :: 0 <= k < |b| ==> after[at + k] == b[k]
    requires forall k :: 0 <= k < |before| && !(at <= k < at + |b|) ==> after[k] == before[k]
    ensures after == before[..at] + b + before[at + |b|..]
  {
    assert after[at..at + |b|] == b;
    assert after == after[..at] + after[at..at + |b|] + after[at + |b|..];
  }

  method EncodeU16LE(v: u16, out: array<byte>, at: nat)
    requires at + 2 <= out.Length
    modifies out
    ensures Patched(out, at, Le(v, 2))
  {
    out[at] := ByteOf(v % 256);
    out[at + 1] := ByteOf((v / 256) % 256);
    assert Le(v / 256, 1) == [ByteOf((v / 256) % 256)] + Le(v / 256 / 256, 0);
    assert Le(v, 2) == [ByteOf(v % 256), ByteOf((v / 256) % 256)];
  }

  function Dropped(v: u32, i: nat): u32 {
    if i == 0 then v else DropByte(Dropped(v, i - 1))
  }

  lemma NoneDropped(v: u32)
    ensures Dropped(v, 0) == v
  {
  }

  lemma OneDropped(v: u32, i: nat)
    ensures Dropped(v, i + 1) == DropByte(Dropped(v, i))
  {
  }

  lemma DroppedBytes(v: u32)
    ensures Le32(v) == [LowByte(Dropped(v, 0)), LowByte(Dropped(v, 1)), LowByte(Dropped(v, 2)), LowByte(Dropped(v, 3))]
  {
    hide LowByte, DropByte;
    assert Dropped(v, 1) == DropByte(v);
    assert Dropped(v, 2) == DropByte(DropByte(v));
  }

  method EncodeU32LE(v: u32, out: array<byte>, at: nat)
    requires at + 4 <= out.Length
    modifies out
    ensures Patched(out, at, Le32(v))
  {
    hide LowByte, DropByte, Le32, Dropped;
    DroppedBytes(v);
    NoneDropped(v);
    var rest := v;
    for i := 0 to 4
      invariant rest == Dropped(v, i)
      invariant forall k :: 0 <= k < i ==> out[at + k] == LowByte(Dropped(v, k))
      invariant forall k :: 0 <= k < out.Length && !(at <= k < at + 4) ==> out[k] == old(out[k])
    {
      OneDropped(v, i);
      out[at + i] := LowByte(rest);
      rest := DropByte(rest);
    }
    forall k | 0 <= k < 4 ensures out[at + k] == Le32(v)[k] {
      assert Le32(v)[k] == LowByte(Dropped(v, k));
    }
    PatchedSeq(old(out[..]), out[..], at, Le32(v));
  }

  method EncodeU64LE(v: u64, out: array<byte>, at: nat)
    requires at + 8 <= out.Length
    modifies out
    ensures Patched(out, at, Le(v, 8))
  {
    hide ByteOf;
    ghost var b := Le(v, 8);
    var rest: nat := v;
    for i := 0 to 8
      invariant Le(rest, 8 - i) == b[i..]
      invariant forall k :: 0 <= k < i ==> out[at + k] == b[k]
      invariant forall k :: 0 <= k < out.Length && !(at <= k < at + 8) ==> out[k] == old(out[k])
    {
      assert b[i..][0] == b[i] && b[i..][1..] == b[i + 1..];
      out[at + i] := ByteOf(rest % 256);
      rest := rest / 256;
    }
    PatchedSeq(old(out[..]), out[..], at, b);
  }

  function DecodeU16LE(p: seq<byte>): nat
    requires |p| == 2
  {
    Value(p[0]) + 256 * Value(p[1])
  }

  lemma TwoDigits(p: seq<byte>)
    requires |p| == 2
    ensures DecodeU16LE(p) == U16(p)
  {
    hide Value;
    assert FromLe(p[1..]) == Value(p[1]) + 256 * FromLe(p[1..][1..]);
  }

  /** A byte moved to position i of a word. */
  function Moved(b: byte, i: nat): u32
    requires i < 4
  {
    if i == 0 then b as u32
    else if i == 1 then (b as u32) << 8
    else if i == 2 then (b as u32) << 16
    else (b as u32) << 24
  }

  function Or32(v: u32, w: u32): u32 {
    v | w
  }

  /** The word gathered from the first i bytes. */
  function Gathered(p: seq<byte>, i: nat): u32
    requires i <= |p| && i <= 4
  {
    if i == 0 then 0 else Or32(Gathered(p, i - 1), Moved(p[i - 1], i - 1))
  }

  lemma GatheredAll(p: seq<byte>)
    requires |p| == 4
    ensures Gathered(p, 4) == FromLe32(p)
  {
    assert Gathered(p, 1) == p[0] as u32;
    assert Gathered(p, 3) == Or32(Or32(Gathered(p, 1), Moved(p[1], 1)), Moved(p[2], 2));
  }

  method DecodeU32LE(p: array<byte>, at: nat) returns (v: u32)
    requires at + 4 <= p.Length
    ensures v == FromLe32(p[at..at + 4])
  {
    hide Moved, Or32, FromLe32;
    v := 0;
    for i := 0 to 4
      invariant v == Gathered(p[at..at + 4], i)
    {
      v := Or32(v, Moved(p[at + i], i));
    }
    GatheredAll(p[at..at + 4]);
  }

  /** What digit i contributes, and what the digits from i on contribute. */
  function Digit(b: seq<byte>, i: nat): nat
    requires i < |b|
  {
    Exp256(i) * Value(b[i])
  }

  function Above(b: seq<byte>, i: nat): nat
    requires i <= |b|
  {
    Exp256(i) * FromLe(b[i..])
  }

  method DecodeU64LE(p: array<byte>, at: nat) returns (v: u64)
    requires at + 8 <= p.Length
    ensures v == U64(p[at..at + 8])
  {
    var n: nat := 0;
    var b := p[at..at + 8];
    NoneAbove(b);
    hide Digit, Above, FromLe;
    for i := 0 to 8
      invariant n + Above(b, i) == FromLe(b)
    {
      GatherStep(b, i);
      n := n + Digit(b, i);
    }
    FromLeRoundTrip(b);
    Widths();
    v := n;
  }

  lemma NoneAbove(b: seq<byte>)
    ensures Above(b, 0) == FromLe(b) && Above(b, |b|) == 0
  {
    assert b[0..] == b && b[|b|..] == [];
  }

  lemma GatherStep(b: seq<byte>, i: nat)
    requires i < |b|
    ensures Above(b, i) == Digit(b, i) + Above(b, i + 1)
  {
    assert b[i..][1..] == b[i + 1..];
    Distribute(Exp256(i), Value(b[i]), FromLe(b[i + 1..]));
  }

  lemma Distribute(e: nat, x: nat, y: nat)
    ensures e * (x + 256 * y) == e * x + (256 * e) * y
  {
  }

  // ---- messages on a socket ----

  function Blank(n: nat): (b: seq<byte>)
    ensures |b| == n
  {
    seq(n, i => 0)
  }

  lemma BlankBuffer(b: seq<byte>)
    requires forall i :: 0 <= i < |b| ==> b[i] == 0
    ensures b == [] + Blank(|b|)
  {
  }

  lemma NothingBlank()
    ensures Blank(0) == []
  {
  }

  /** Filling in the next field of a buffer that is blank from there on. */
  lemma FillNext(done: seq<byte>, b: seq<byte>, n: nat)
    requires |b| <= n
    ensures var buf := done + Blank(n);
            buf[..|done|] + b + buf[|done| + |b|..] == (done + b) + Blank(n - |b|)
  {
  }

  lemma SkipTwo(done: seq<byte>, n: nat)
    requires n >= 2
    ensures done + Blank(n) == (done + [0, 0]) + Blank(n - 2)
  {
  }

  method WriteSessionHeader(sock: Socket, table: Table, h: SessionHeader, ec0: Errc) returns (ok: bool, ec: Errc)
    requires table.Valid()
    modifies sock`sent, sock`sendScript
    ensures ok ==> sock.sent == old(sock.sent) + EncodeHeader(h) && ec == ec0
    ensures !ok ==> old(sock.sent) <= sock.sent < old(sock.sent) + EncodeHeader(h) && (ec == ec0 || ec.SystemError?)
    ensures Done(ok, ec, sock.Out()) == PushAll(old(sock.Out()), EncodeHeader(h), ec0)
    ensures Steady(old(sock.sendScript)) ==> ok && Steady(sock.sendScript)
  {
    hide Le32, Le, Checksum, Steady, Blank, PushAll;
    var buf := new byte[32](i => 0);
    ghost var m, v, f, t, g := Le32(PROTO_MAGIC), Le(h.version, 2), Le(h.totalFiles, 8), Le(h.totalBytes, 8),
      Le32(h.flags);
    assert buf[..] == [] + Blank(32) by { BlankBuffer(buf[..]); }
    EncodeU32LE(PROTO_MAGIC, buf, 0);
    FillNext([], m, 32);
    EncodeU16LE(h.version, buf, 4);
    FillNext([] + m, v, 28);
    SkipTwo([] + m + v, 26);
    EncodeU64LE(h.totalFiles, buf, 8);
    FillNext([] + m + v + [0, 0], f, 24);
    EncodeU64LE(h.totalBytes, buf, 16);
    FillNext([] + m + v + [0, 0] + f, t, 16);
    EncodeU32LE(h.flags, buf, 24);
    FillNext([] + m + v + [0, 0] + f + t, g, 8);
    assert [] + m + v + [0, 0] + f + t + g == HeaderBody(h) by { assert [] + m == m; }
    assert buf[..] == HeaderBody(h) + Blank(4);
    assert buf[..28] == HeaderBody(h);
    var crc := Crc32.Compute(table, buf, 28);
    EncodeU32LE(crc, buf, 28);
    FillNext(HeaderBody(h), Le32(crc), 4);
    assert buf[..] == EncodeHeader(h) by { NothingBlank(); }
    ok, ec := sock.SendAll(buf[..], ec0);
  }

  method ReadSessionHeader(sock: Socket, table: Table, ec0: Errc)
    returns (ok: bool, h: SessionHeader, ec: Errc, ghost missing: nat)
    requires table.Valid()
    modifies sock`incoming, sock`recvCounts, sock`marks
    ensures match ReadHeader(old(sock.incoming))
            case Accepted(value, rest) => ok && h == value && sock.incoming == rest && ec == ec0 && missing == 0
            case Refused(rest) => !ok && sock.incoming == rest && ec == InvalidArgument && missing == 0
            case Starved(m) => !ok && sock.incoming == [] && ec == sock.EndError() && missing == m
    ensures sock.marks == old(sock.marks) + Repeat(|sock.sent|, |old(sock.incoming)| - |sock.incoming|)
  {
    hide FromLe32, Checksum, U64, U16;
    h := SessionHeader(1, 0, 0, 0);
    var buf := new byte[32];
    ok, ec, missing := sock.RecvAll(buf, 32, ec0);
    if !ok {
      return;
    }
    ghost var b := old(sock.incoming)[..32];
    assert buf[..] == b;
    var magic := DecodeU32LE(buf, 0);
    if magic != PROTO_MAGIC {
      return false, h, InvalidArgument, 0;
    }
    var expected := DecodeU32LE(buf, 28);
    var actual := Crc32.Compute(table, buf, 28);
    assert buf[28..28 + 4] == b[28..] && buf[..28] == b[..28];
    if expected != actual {
      return false, h, InvalidArgument, 0;
    }
    var totalFiles := DecodeU64LE(buf, 8);
    var totalBytes := DecodeU64LE(buf, 16);
    var flags := DecodeU32LE(buf, 24);
    TwoDigits(buf[4..6]);
    h := SessionHeader(DecodeU16LE(buf[4..6]), flags, totalFiles, totalBytes);
  }

  method WriteAck(sock: Socket, flags: u32, ec0: Errc) returns (ok: bool, ec: Errc)
    modifies sock`sent, sock`sendScript
    ensures ok ==> sock.sent == old(sock.sent) + EncodeAck(flags) && ec == ec0
    ensures !ok ==> old(sock.sent) <= sock.sent < old(sock.sent) + EncodeAck(flags) && (ec == ec0 || ec.SystemError?)
    ensures Done(ok, ec, sock.Out()) == PushAll(old(sock.Out()), EncodeAck(flags), ec0)
    ensures Steady(old(sock.sendScript)) ==> ok && Steady(sock.sendScript)
  {
    hide Le32, Steady, PushAll;
    var buf := new byte[8];
    EncodeU32LE(ACK_MAGIC, buf, 0);
    EncodeU32LE(flags, buf, 4);
    assert buf[..] == EncodeAck(flags);
    ok, ec := sock.SendAll(buf[..], ec0);
  }

  method ReadAckFrom(sock: Socket, ec0: Errc) returns (ok: bool, flags: u32, ec: Errc, ghost missing: nat)
    modifies sock`incoming, sock`recvCounts, sock`marks
    ensures match ReadAck(old(sock.incoming))
            case Accepted(value, rest) => ok && flags == value && sock.incoming == rest && ec == ec0 && missing == 0
            case Refused(rest) => !ok && sock.incoming == rest && ec == InvalidArgument && missing == 0
            case Starved(m) => !ok && sock.incoming == [] && ec == sock.EndError() && missing == m
    ensures sock.marks == old(sock.marks) + Repeat(|sock.sent|, |old(sock.incoming)| - |sock.incoming|)
  {
    hide FromLe32;
    flags := 0;
    var buf := new byte[8];
    ok, ec, missing := sock.RecvAll(buf, 8, ec0);
    if !ok {
      return;
    }
    assert buf[..] == old(sock.incoming)[..8];
    var magic := DecodeU32LE(buf, 0);
    if magic != ACK_MAGIC {
      return false, flags, InvalidArgument, 0;
    }
    flags := DecodeU32LE(buf, 4);
  }

  /** A file record is pushed in two parts, its fixed head and its path. */
  function PushFileHeader(io: Io, e: FileEntry, ec: Errc): Done {
    if |e.relPath| > 0xFFFF then Done(false, FilenameTooLong, io)
    else
      var d := PushAll(io, EncodeHead(RecordHead(|e.relPath|, e.size, e.crc32)), ec);
      if !d.ok then d else PushAll(d.io, e.relPath, d.ec)
  }

  method WriteFileHeader(sock: Socket, e: FileEntry, ec0: Errc) returns (ok: bool, ec: Errc)
    modifies sock`sent, sock`sendScript
    ensures |e.relPath| > 0xFFFF ==> !ok && ec == FilenameTooLong && sock.sent == old(sock.sent)
    ensures ok ==> |e.relPath| <= 0xFFFF && sock.sent == old(sock.sent) + EncodeFileHeader(e) && ec == ec0
    ensures !ok && |e.relPath| <= 0xFFFF ==>
              old(sock.sent) <= sock.sent < old(sock.sent) + EncodeFileHeader(e) && (ec == ec0 || ec.SystemError?)
    ensures Done(ok, ec, sock.Out()) == PushFileHeader(old(sock.Out()), e, ec0)
    ensures Steady(old(sock.sendScript)) ==> Steady(sock.sendScript) && (ok <==> |e.relPath| <= 0xFFFF)
  {
    hide Le32, Le, Steady, PushAll;
    if |e.relPath| > 0xFFFF {
      return false, FilenameTooLong;
    }
    var pathLen: u16 := |e.relPath|;
    var fixed := new byte[18];
    EncodeU32LE(FILE_MAGIC, fixed, 0);
    EncodeU16LE(pathLen, fixed, 4);
    EncodeU64LE(e.size, fixed, 6);
    EncodeU32LE(e.crc32, fixed, 14);
    assert fixed[..] == EncodeHead(RecordHead(pathLen, e.size, e.crc32));
    hide EncodeHead;
    ok, ec := sock.SendAll(fixed[..], ec0);
    if !ok {
      assert old(sock.sent) + fixed[..] <= old(sock.sent) + EncodeFileHeader(e);
      return;
    }
    NothingToPush(sock.Out(), e.relPath, ec);
    if pathLen > 0 {
      ok, ec := sock.SendAll(e.relPath, ec);
    }
    assert old(sock.sent) + EncodeFileHeader(e) == old(sock.sent) + fixed[..] + e.relPath;
  }

  /** The fixed part of a record, from its buffer. */
  method DecodeFixed(fixed: array<byte>) returns (known: bool, head: RecordHead)
    requires fixed.Length == 18
    ensures DecodeHead(fixed[..]) == if known then Some(head) else None
  {
    hide FromLe32, U64, U16;
    known, head := false, RecordHead(0, 0, 0);
    ghost var b := fixed[..];
    assert fixed[0..0 + 4] == b[..4] && fixed[4..6] == b[4..6];
    assert fixed[6..6 + 8] == b[6..14] && fixed[14..14 + 4] == b[14..];
    var magic := DecodeU32LE(fixed, 0);
    if magic != FILE_MAGIC {
      return;
    }
    TwoDigits(fixed[4..6]);
    var pathLen := DecodeU16LE(fixed[4..6]);
    var size := DecodeU64LE(fixed, 6);
    var crc := DecodeU32LE(fixed, 14);
    known, head := true, RecordHead(pathLen, size, crc);
  }

  method ReadFileHeaderFrom(sock: Socket, ec0: Errc) returns (ok: bool, e: FileEntry, ec: Errc, ghost missing: nat)
    modifies sock`incoming, sock`recvCounts, sock`marks
    ensures match ReadFileHeader(old(sock.incoming))
            case Accepted(value, rest) => ok && e == value && sock.incoming == rest && ec == ec0 && missing == 0
            case Refused(rest) => !ok && sock.incoming == rest && ec == InvalidArgument && missing == 0
            case Starved(m) => !ok && sock.incoming == [] && ec == sock.EndError() && missing == m
    ensures sock.marks == old(sock.marks) + Repeat(|sock.sent|, |old(sock.incoming)| - |sock.incoming|)
  {
    hide DecodeHead, Repeat;
    e := FileEntry([], 0, 0);
    var fixed := new byte[18];
    ok, ec, missing := sock.RecvAll(fixed, 18, ec0);
    if !ok {
      return;
    }
    ghost var b := old(sock.incoming)[..18];
    assert fixed[..] == b;
    var known, head := DecodeFixed(fixed);
    if !known {
      return false, e, InvalidArgument, 0;
    }
    var pathLen := head.pathLen;
    var path: Text := [];
    if pathLen > 0 {
      var tmp := new byte[pathLen];
      ok, ec, missing := sock.RecvAll(tmp, pathLen, ec);
      RepeatConcat(old(sock.marks), |sock.sent|, 18, |old(sock.incoming)| - 18 - |sock.incoming|);
      if !ok {
        return;
      }
      path := tmp[..pathLen];
    }
    assert path == old(sock.incoming)[18..18 + pathLen];
    assert sock.incoming == old(sock.incoming)[18 + pathLen..];
    e := FileEntry(path, head.size, head.crc32);
  }

  method WriteDone(sock: Socket, ec0: Errc) returns (ok: bool, ec: Errc)
    modifies sock`sent, sock`sendScript
    ensures ok ==> sock.sent == old(sock.sent) + EncodeDone() && ec == ec0
    ensures !ok ==> old(sock.sent) <= sock.sent < old(sock.sent) + EncodeDone() && (ec == ec0 || ec.SystemError?)
    ensures Done(ok, ec, sock.Out()) == PushAll(old(sock.Out()), EncodeDone(), ec0)
    ensures Steady(old(sock.sendScript)) ==> ok && Steady(sock.sendScript)
  {
    hide Le32, Steady, PushAll;
    var buf := new byte[4];
    EncodeU32LE(DONE_MAGIC, buf, 0);
    assert buf[..] == EncodeDone();
    ok, ec := sock.SendAll(buf[..], ec0);
  }

  method ReadDone(sock: Socket, ec0: Errc) returns (ok: bool, ec: Errc, ghost missing: nat)
    modifies sock`incoming, sock`recvCounts, sock`marks
    ensures |old(sock.incoming)| < 4 ==>
              !ok && sock.incoming == [] && ec == sock.EndError() && missing == 4 - |old(sock.incoming)|
    ensures |old(sock.incoming)| >= 4 ==>
              sock.incoming == old(sock.incoming)[4..] && ec == ec0 && missing == 0 &&
              (ok <==> DecodeDone(old(sock.incoming)[..4]))
    ensures sock.marks == old(sock.marks) + Repeat(|sock.sent|, |old(sock.incoming)| - |sock.incoming|)
  {
    hide FromLe32;
    var buf := new byte[4];
    ok, ec, missing := sock.RecvAll(buf, 4, ec0);
    if ok {
      assert buf[0..0 + 4] == old(sock.incoming)[..4];
      var magic := DecodeU32LE(buf, 0);
      ok := magic == DONE_MAGIC;
    }
  }
}
