/** The wire format: values, their encodings, and the acceptance rules of the readers. */
module Wire {
  import opened BitStrings
  import opened LittleEndian
  import opened Crc32c
  import opened ChecksumTheory

  datatype Option<+T> = None | Some(value: T)

  const PROTO_MAGIC: u32 := 0x5846_4552
  const ACK_MAGIC: u32 := 0x4F4B_4159
  const FILE_MAGIC: u32 := 0x4649_4C45
  const DONE_MAGIC: u32 := 0x444F_4E45
  const PROTO_VERSION: u16 := 1
  const FLAG_CRC32: u32 := 1

  datatype SessionHeader = SessionHeader(version: u16, flags: u32, totalFiles: u64, totalBytes: u64)

  datatype FileEntry = FileEntry(relPath: Text, size: u64, crc32: u32)

  /** The fixed part of a file record. */
  datatype RecordHead = RecordHead(pathLen: u16, size: u64, crc32: u32)

  // ---- encoding ----

  function HeaderBody(h: SessionHeader): (b: seq<byte>)
    ensures |b| == 28
  {
    Le32(PROTO_MAGIC) + Le(h.version, 2) + [0, 0] + Le(h.totalFiles, 8) + Le(h.totalBytes, 8) + Le32(h.flags)
  }

  function EncodeHeader(h: SessionHeader): (b: seq<byte>)
    ensures |b| == 32
  {
    HeaderBody(h) + Le32(Checksum(HeaderBody(h)))
  }

  function EncodeAck(flags: u32): (b: seq<byte>)
    ensures |b| == 8
  {
    Le32(ACK_MAGIC) + Le32(flags)
  }

  function EncodeHead(r: RecordHead): (b: seq<byte>)
    ensures |b| == 18
  {
    Le32(FILE_MAGIC) + Le(r.pathLen, 2) + Le(r.size, 8) + Le32(r.crc32)
  }

  /** A file record without its payload; paths above 65535 bytes have no encoding. */
  function EncodeFileHeader(e: FileEntry): (b: seq<byte>)
    requires |e.relPath| <= 0xFFFF
    ensures |b| == 18 + |e.relPath|
  {
    EncodeHead(RecordHead(|e.relPath|, e.size, e.crc32)) + e.relPath
  }

  function EncodeDone(): (b: seq<byte>)
    ensures |b| == 4
  {
    Le32(DONE_MAGIC)
  }

  // ---- decoding ----

  function U16(b: seq<byte>): u16
    requires |b| == 2
  {
    FromLeRoundTrip(b);
    Widths();
    FromLe(b)
  }

  function U64(b: seq<byte>): u64
    requires |b| == 8
  {
    FromLeRoundTrip(b);
    Widths();
    FromLe(b)
  }

  function DecodeHeader(b: seq<byte>): Option<SessionHeader>
    requires |b| == 32
  {
    if FromLe32(b[..4]) != PROTO_MAGIC then None
    else if FromLe32(b[28..]) != Checksum(b[..28]) then None
    else Some(SessionHeader(U16(b[4..6]), FromLe32(b[24..28]), U64(b[8..16]), U64(b[16..24])))
  }

  function DecodeAck(b: seq<byte>): Option<u32>
    requires |b| == 8
  {
    if FromLe32(b[..4]) != ACK_MAGIC then None else Some(FromLe32(b[4..]))
  }

  function DecodeHead(b: seq<byte>): Option<RecordHead>
    requires |b| == 18
  {
    if FromLe32(b[..4]) != FILE_MAGIC then None
    else Some(RecordHead(U16(b[4..6]), U64(b[6..14]), FromLe32(b[14..])))
  }

  predicate DecodeDone(b: seq<byte>)
    requires |b| == 4
  {
    FromLe32(b) == DONE_MAGIC
  }

  // ---- each reader accepts exactly what its writer produces ----

  lemma Le32Inverse(v: u32, b: seq<byte>)
    requires |b| == 4
    ensures FromLe32(b) == v <==> b == Le32(v)
  {
    Le32RoundTrip(v);
    FromLe32RoundTrip(b);
  }

  lemma LeInverse(v: nat, b: seq<byte>)
    requires v < Exp256(|b|)
    ensures FromLe(b) == v <==> b == Le(v, |b|)
  {
    LeRoundTrip(v, |b|);
    FromLeRoundTrip(b);
  }

  lemma AckIff(b: seq<byte>, flags: u32)
    requires |b| == 8
    ensures DecodeAck(b) == Some(flags) <==> b == EncodeAck(flags)
  {
    Le32Inverse(ACK_MAGIC, b[..4]);
    Le32Inverse(flags, b[4..]);
    hide Le32, FromLe32;
    assert b == b[..4] + b[4..];
  }

  lemma DoneIff(b: seq<byte>)
    requires |b| == 4
    ensures DecodeDone(b) <==> b == EncodeDone()
  {
    Le32Inverse(DONE_MAGIC, b);
  }

  lemma HeadIff(b: seq<byte>, r: RecordHead)
    requires |b| == 18
    ensures DecodeHead(b) == Some(r) <==> b == EncodeHead(r)
  {
    Widths();
    Le32Inverse(FILE_MAGIC, b[..4]);
    LeInverse(r.pathLen, b[4..6]);
    LeInverse(r.size, b[6..14]);
    Le32Inverse(r.crc32, b[14..]);
    hide Le32, FromLe32, Le, FromLe;
    assert b == b[..4] + b[4..6] + b[6..14] + b[14..];
    var e := EncodeHead(r);
    assert e[..4] == Le32(FILE_MAGIC) && e[4..6] == Le(r.pathLen, 2) && e[6..14] == Le(r.size, 8) &&
           e[14..] == Le32(r.crc32);
  }

  lemma BodyParts(h: SessionHeader)
    ensures var e := HeaderBody(h);
            e[..4] == Le32(PROTO_MAGIC) && e[4..6] == Le(h.version, 2) && e[6..8] == [0, 0] &&
            e[8..16] == Le(h.totalFiles, 8) && e[16..24] == Le(h.totalBytes, 8) && e[24..28] == Le32(h.flags)
  {
    hide Le32, Le;
  }

  lemma SliceSplit(a: seq<byte>, b: seq<byte>, lo: nat, mid: nat, hi: nat)
    requires lo <= mid <= hi <= |a| && hi <= |b|
    ensures a[lo..hi] == b[lo..hi] <==> a[lo..mid] == b[lo..mid] && a[mid..hi] == b[mid..hi]
  {
    assert a[lo..hi] == a[lo..mid] + a[mid..hi] && b[lo..hi] == b[lo..mid] + b[mid..hi];
    assert a[lo..mid] == a[lo..hi][..mid - lo] && b[lo..mid] == b[lo..hi][..mid - lo];
    assert a[mid..hi] == a[lo..hi][mid - lo..] && b[mid..hi] == b[lo..hi][mid - lo..];
  }

  lemma FieldsIff(b: seq<byte>, h: SessionHeader)
    requires |b| == 32
    ensures FromLe32(b[..4]) == PROTO_MAGIC && U16(b[4..6]) == h.version && FromLe32(b[24..28]) == h.flags &&
            U64(b[8..16]) == h.totalFiles && U64(b[16..24]) == h.totalBytes <==>
            b[0..6] == HeaderBody(h)[0..6] && b[8..28] == HeaderBody(h)[8..28]
  {
    Widths();
    Le32Inverse(PROTO_MAGIC, b[..4]);
    LeInverse(h.version, b[4..6]);
    LeInverse(h.totalFiles, b[8..16]);
    LeInverse(h.totalBytes, b[16..24]);
    Le32Inverse(h.flags, b[24..28]);
    BodyParts(h);
    hide Le32, FromLe32, Le, FromLe, HeaderBody;
    var e := HeaderBody(h);
    assert b[..4] == b[0..4] && e[..4] == e[0..4];
    SliceSplit(b, e, 0, 4, 6);
    SliceSplit(b, e, 8, 16, 28);
    SliceSplit(b, e, 16, 24, 28);
    assert FromLe32(b[..4]) == PROTO_MAGIC <==> b[0..4] == e[0..4];
    assert U16(b[4..6]) == h.version <==> b[4..6] == e[4..6];
    assert U64(b[8..16]) == h.totalFiles <==> b[8..16] == e[8..16];
    assert U64(b[16..24]) == h.totalBytes <==> b[16..24] == e[16..24];
    assert FromLe32(b[24..28]) == h.flags <==> b[24..28] == e[24..28];
  }

  /** The header reader accepts b as h exactly when b is the encoding of h up to the two reserved bytes,
      with a matching checksum. */
  lemma HeaderIff(b: seq<byte>, h: SessionHeader)
    requires |b| == 32
    ensures DecodeHeader(b) == Some(h) <==>
            b[0..6] == HeaderBody(h)[0..6] && b[8..28] == HeaderBody(h)[8..28] && b[28..] == Le32(Checksum(b[..28]))
  {
    FieldsIff(b, h);
    Le32Inverse(Checksum(b[..28]), b[28..]);
    hide Le32, FromLe32, Le, FromLe, HeaderBody, Checksum, U16, U64;
  }

  /** With zero reserved bytes, re-encoding an accepted header reproduces it byte for byte. */
  lemma HeaderReencodes(b: seq<byte>, h: SessionHeader)
    requires |b| == 32 && b[6..8] == [0, 0]
    ensures DecodeHeader(b) == Some(h) <==> b == EncodeHeader(h)
  {
    HeaderIff(b, h);
    BodyParts(h);
    hide Le32, HeaderBody, Checksum, DecodeHeader;
    var e := HeaderBody(h);
    SliceSplit(b, e, 0, 6, 28);
    SliceSplit(b, e, 6, 8, 28);
    assert e == e[0..28] && b[..28] == b[0..28] && b == b[..28] + b[28..];
    assert EncodeHeader(h)[..28] == e && EncodeHeader(h)[28..] == Le32(Checksum(e));
  }

  lemma HeaderRoundTrip(h: SessionHeader)
    ensures DecodeHeader(EncodeHeader(h)) == Some(h)
  {
    BodyParts(h);
    assert EncodeHeader(h)[6..8] == HeaderBody(h)[6..8];
    HeaderReencodes(EncodeHeader(h), h);
  }

  /** Any damage to a session header within 32 consecutive bits is noticed, wherever it falls. */
  lemma HeaderBurstRejected(h: SessionHeader, b: seq<byte>, at: nat)
    requires b != EncodeHeader(h) && WithinBurst(EncodeHeader(h), b, at)
    ensures DecodeHeader(b) == None
  {
    var e := EncodeHeader(h);
    hide Le32, FromLe32, HeaderBody, Checksum, Register;
    BurstChangesRegister(ONES, e, b, at);
    Le32RoundTrip(Checksum(HeaderBody(h)));
    assert e[..28] == HeaderBody(h) && e == e[..28] + e[28..] && b == b[..28] + b[28..];
    ResidueCharacterises(e[..28], e[28..]);
    ResidueCharacterises(b[..28], b[28..]);
  }

  // ---- the layout in plain bytes ----

  lemma MagicBytes()
    ensures Le32(PROTO_MAGIC) == [0x52, 0x45, 0x46, 0x58] && Le32(ACK_MAGIC) == [0x59, 0x41, 0x4B, 0x4F]
    ensures Le32(FILE_MAGIC) == [0x45, 0x4C, 0x49, 0x46] && Le32(DONE_MAGIC) == [0x45, 0x4E, 0x4F, 0x44]
  {
    Le32InBits(PROTO_MAGIC);
    Le32InBits(ACK_MAGIC);
    Le32InBits(FILE_MAGIC);
    Le32InBits(DONE_MAGIC);
  }

  /** A 32-byte session header: magic, version, two zero bytes, file count, byte total, flags, and the checksum of
      the 28 bytes before it. */
  predicate HeaderLayout(b: seq<byte>, version: nat, files: nat, bytes: nat, flags: u32) {
    |b| == 32 && b[..4] == [0x52, 0x45, 0x46, 0x58] && FromLe(b[4..6]) == version && b[6..8] == [0, 0] &&
    FromLe(b[8..16]) == files && FromLe(b[16..24]) == bytes && b[24..28] == Le32(flags) &&
    b[28..] == Le32(Checksum(b[..28]))
  }

  lemma HeaderIsLaidOut(h: SessionHeader)
    ensures HeaderLayout(EncodeHeader(h), h.version, h.totalFiles, h.totalBytes, h.flags)
  {
    hide Le32, Le, FromLe, HeaderBody, Checksum, Exp256;
    Widths();
    MagicBytes();
    LeRoundTrip(h.version, 2);
    LeRoundTrip(h.totalFiles, 8);
    LeRoundTrip(h.totalBytes, 8);
    BodyParts(h);
    var b, e := EncodeHeader(h), HeaderBody(h);
    assert b[..28] == e && b[..4] == e[..4] && b[4..6] == e[4..6] && b[6..8] == e[6..8];
    assert b[8..16] == e[8..16] && b[16..24] == e[16..24] && b[24..28] == e[24..28];
  }

  /** An acknowledgement: magic and flags. */
  lemma AckIsLaidOut(flags: u32)
    ensures EncodeAck(flags) == [0x59, 0x41, 0x4B, 0x4F] + Le32(flags)
  {
    hide Le32;
    MagicBytes();
  }

  /** Eight bytes are an acknowledgement exactly when they start with its magic. */
  lemma AckMagicFirst(input: seq<byte>)
    requires |input| >= 8
    ensures ReadAck(input).Accepted? <==> input[..4] == [0x59, 0x41, 0x4B, 0x4F]
    ensures !ReadAck(input).Accepted? ==> ReadAck(input) == Refused(input[8..])
    ensures ReadAck(input).Accepted? ==> ReadAck(input).rest == input[8..]
  {
    hide Le32, FromLe32;
    MagicBytes();
    Le32Inverse(ACK_MAGIC, input[..4]);
    assert input[..8][..4] == input[..4];
  }

  /** A file record: magic at 0, path length at 4, size at 6, checksum at 14, path at 18. */
  predicate RecordLayout(b: seq<byte>, path: Text, size: nat, crc: u32) {
    |b| == 18 + |path| && b[..4] == [0x45, 0x4C, 0x49, 0x46] && FromLe(b[4..6]) == |path| &&
    FromLe(b[6..14]) == size && b[14..18] == Le32(crc) && b[18..] == path
  }

  lemma RecordIsLaidOut(e: FileEntry)
    requires |e.relPath| <= 0xFFFF
    ensures RecordLayout(EncodeFileHeader(e), e.relPath, e.size, e.crc32)
  {
    hide Le32, Le, FromLe, Exp256;
    Widths();
    MagicBytes();
    LeRoundTrip(|e.relPath|, 2);
    LeRoundTrip(e.size, 8);
    var b := EncodeFileHeader(e);
    assert b[..4] == Le32(FILE_MAGIC) && b[4..6] == Le(|e.relPath|, 2) && b[6..14] == Le(e.size, 8);
    assert b[14..18] == Le32(e.crc32) && b[18..] == e.relPath;
  }

  lemma DoneIsLaidOut()
    ensures EncodeDone() == [0x45, 0x4E, 0x4F, 0x44]
  {
    MagicBytes();
  }

  // ---- readers over a byte stream ----

  /** What a reader makes of the stream: a value and the rest, a refusal after consuming its bytes, or
      the number of bytes its unfinished read still waits for. */
  datatype Read<+T> = Accepted(value: T, rest: seq<byte>) | Refused(rest: seq<byte>) | Starved(missing: nat)

  function ReadHeader(input: seq<byte>): Read<SessionHeader> {
    if |input| < 32 then Starved(32 - |input|)
    else match DecodeHeader(input[..32])
      case None => Refused(input[32..])
      case Some(h) => Accepted(h, input[32..])
  }

  function ReadAck(input: seq<byte>): Read<u32> {
    if |input| < 8 then Starved(8 - |input|)
    else match DecodeAck(input[..8])
      case None => Refused(input[8..])
      case Some(flags) => Accepted(flags, input[8..])
  }

  lemma HeaderTakes32(input: seq<byte>)
    ensures ReadHeader(input).Accepted? ==> |input| == 32 + |ReadHeader(input).rest|
    ensures ReadHeader(input).Refused? ==> |input| >= 32 && ReadHeader(input).rest == input[32..]
    ensures ReadHeader(input).Starved? ==> |input| < 32 && ReadHeader(input).missing == 32 - |input|
  {
    hide DecodeHeader;
  }

  lemma AckTakesEight(input: seq<byte>)
    ensures ReadAck(input).Accepted? ==> |input| == 8 + |ReadAck(input).rest|
  {
  }

  function ReadFileHeader(input: seq<byte>): Read<FileEntry> {
    if |input| < 18 then Starved(18 - |input|)
    else match DecodeHead(input[..18])
      case None => Refused(input[18..])
      case Some(r) =>
        if |input| < 18 + r.pathLen then Starved(18 + r.pathLen - |input|)
        else Accepted(FileEntry(input[18..18 + r.pathLen], r.size, r.crc32), input[18 + r.pathLen..])
  }

  /** The record reader accepts e and leaves rest exactly on the encoding of e followed by rest. */
  lemma FileHeaderIff(input: seq<byte>, e: FileEntry, rest: seq<byte>)
    ensures ReadFileHeader(input) == Accepted(e, rest) <==>
            |e.relPath| <= 0xFFFF && input == EncodeFileHeader(e) + rest
  {
    if |input| >= 18 {
      var n := |e.relPath|;
      if n <= 0xFFFF {
        HeadIff(input[..18], RecordHead(n, e.size, e.crc32));
        hide DecodeHead, EncodeHead;
        if input == EncodeFileHeader(e) + rest {
          assert input[..18] == EncodeHead(RecordHead(n, e.size, e.crc32));
          assert input[18..18 + n] == e.relPath && input[18 + n..] == rest;
        }
        if ReadFileHeader(input) == Accepted(e, rest) {
          assert input == input[..18] + input[18..18 + n] + input[18 + n..];
        }
      }
    }
  }

  /** A record header cut short leaves its reader waiting, and never for more than is missing. */
  lemma FileHeaderCut(e: FileEntry, k: nat)
    requires |e.relPath| <= 0xFFFF && k < |EncodeFileHeader(e)|
    ensures var r := ReadFileHeader(EncodeFileHeader(e)[..k]);
            r.Starved? && 0 < r.missing <= |EncodeFileHeader(e)| - k
  {
    if k >= 18 {
      var head := RecordHead(|e.relPath|, e.size, e.crc32);
      HeadIff(EncodeHead(head), head);
      hide DecodeHead, EncodeHead;
      assert EncodeFileHeader(e)[..k][..18] == EncodeHead(head);
    }
  }
}
