# xfer: a verified model of the transfer session

xfer sends files over one connected byte stream. The sender scans paths into a manifest, computes a CRC-32C for
each file, writes a session header, waits for an acknowledgement, then writes one record and payload per file and a
trailer. The receiver checks the header, acknowledges, and stores each file under an output directory, checking
sizes, checksums and paths on the way. This project models that stack from the checksum up to the two parties
together, and proves what it promises.

## How it is built

| part | files |
|---|---|
| checksum | `BitStrings`, `Castagnoli` (long division by the CRC32C polynomial, section 12.1 of RFC 3720), `Crc32c` (the table and the class as they run), `ChecksumTheory` |
| wire format | `LittleEndian`, `Wire` (pure codec and its acceptance rules), `WireIo` (buffers, loops and sockets) |
| byte stream | `Transfers` (system calls and transfer loops as functions of arbitrary finite scripts of short counts, interruptions, failures and end of stream), `Socket` (module `Net`: the socket and file objects and the loops as they run) |
| receiver | `Paths` (lexical POSIX paths), `Disk`, `Session` (what the receiver does, as one pure function of the byte stream), `Receiver` (the methods, refining it) |
| sender | `Manifest`, `Collect` (sort, drop duplicates), `SeveralSources` (what is found again on disk), `Scanning` (the scan, in terms of the tree and the options alone), `Sending` (what is sent for a manifest), `Outbound` (every run of the sender, failures included, as a function), `Sender` (the methods) |
| results | `SessionTheory`, `Delivery` (delivery, truncation, damage, unique readability), `Safety` (arbitrary streams, replay), `Failures` (every failure has its reason), `Duplex` (both parties as interleaved steps over bounded channels), `EndToEnd` (a directory tree arrives as the same tree), `ZeroChecksum` (a file that is never checked), `CheckValues` (published check values of CRC32C) |

Objects the program updates in place are classes (`Crc32`, `Table`, `Socket`, `SourceFile`, `FileSystem`, `Host`), its
loops are loops, and each method is proved against a function of its inputs; the theorems are lemmas about these
functions. `Receiving` is the function the receiver refines: its result has, beside the outcome, the number of bytes
that an unfinished read still waits for, which the methods return as `missing` and which the two-party machine steps
on. The order of the handshake is in the methods' contracts too: the ghost field `marks` of a socket records, for each
byte that was read, how many had been sent by then. A method takes the error code its C++ counterpart finds in `ec`
as `ec0` and returns the one it leaves.

What the functions say is also stated without them, in plain bytes and numbers: the layout of every message
(`Wire.HeaderLayout`, `Wire.RecordLayout`), a whole session (`Sending.SessionInBytes`), the path guard and path
resolution (`Paths.SafeInBytes`, `Paths.LocateInBytes`), the byte order of a manifest (`Collect.ByteLess`), what a scan
lists (`Scanning.Accounts`), and what a receiver does for given options (`Receiver.Honoured`). The contracts of the
methods name these.

Time, logging and the operating system appear only through the scripts. A script entry answers one call; an exhausted
script answers with complete, successful calls.

## Where the code and its documentation disagree

The model follows the code.

- `src/transfer/protocol.h:32` has paths with `\` rejected; the code rejects only a component that is `\` itself
  (`Paths.BackslashAccepted`; `Receiver.ValidateAndJoin` gives the exact rule).
- `src/transfer/protocol.h:33` has a wrong record count rejected; announcing too few files succeeds, takes
  four bytes of the next record for the trailer and leaves the rest unread (`Delivery.AnnouncedCount`, an if and only
  if).
- `src/transfer/receiver.cpp:98` has the summary filled only on success; it is filled record by record
  (`Delivery.Truncation`, `Delivery.PayloadBurstRejected`).
- Version, reserved bytes, flags and byte total are covered by the header checksum but never looked at
  (`Wire.HeaderIff`, `Delivery.HeaderFieldsIgnored`).
- A missing source makes `SendPaths` return true with nothing sent and the error code set (`Sender.SendPaths`).
- An empty manifest puts nothing on the wire and succeeds; the receiver fails for want of a header
  (`EndToEnd.EmptyDirectory`, `Duplex.DeliversExactlyWhen`).
- With several sources, `ResolveOnDisk` can pick another file of the same name and size (`SeveralSources.WrongFileSent`);
  `SeveralSources.ResolvesOwnFile` and `SeveralSources.FoundExactlyWhen` say exactly when it does not. A directory among
  several sources is not searched itself (`SeveralSources.WalkedAmongSeveral`).
- `src/transfer/sender.h:35` lets a prefix be stripped from the paths; a walked file is then found again exactly when the
  prefix is as deep as the source directory, or deeper and unrelated, so never with a directory above it
  (`SeveralSources.StrippedFileFoundExactlyWhen`).
- A checksum field of 0 means unchecked, so a file whose checksum is 0 is never checked. There is one of four bytes
  (`ZeroChecksum.ZeroChecksumExists`); for it the sender computes the field 0, and damage of the same length is
  delivered with verification on (`ZeroChecksum.UnseenDamageDelivered`).
- `SendAll` and `RecvAll` narrow the counts of their calls to int. They can be trusted up to 2 GiB; beyond, a kernel that
  takes everything at once makes them fail (`Transfers.PushAllAtOnce`). Every caller stays far below.
- `include/xfer/protocol.h:28` reads the magic as "XFER"; in the byte order the code writes, the stream starts with the
  letters in reverse.
- With a file shorter than declared, the userspace path of `SendFileBytes` fails without setting an error, the kernel
  path with io_error (`Outbound.ZeroCopyRefinesUserspace`).

## Model

| member | source | states |
|---|---|---|
| `Crc32c.Table.Build` | src/common/crc32.cpp:23-32 | fills every cell with eight steps of the bit recurrence of its index, once |
| `Crc32c.Crc32.constructor` | src/common/crc32.cpp:41 | the register starts as all ones |
| `Crc32c.Crc32.Reset` | src/common/crc32.cpp:42 | the register is all ones again |
| `Crc32c.TableStep` | src/common/crc32.cpp:47 | one table lookup and shift is the byte step of the bit recurrence, for every register and byte |
| `Crc32c.ShiftXor` | src/common/crc32.cpp:28 | the bit step is linear over xor |
| `Crc32c.Crc32.Update` | src/common/crc32.cpp:44-49 | the loop leaves the register of the byte-by-byte recurrence over the data |
| `Crc32c.Crc32.Compute` | src/common/crc32.cpp:53-57 | the one-shot value is the checksum of the data |
| `Castagnoli.RemainderIsUnique` | src/common/crc32.cpp:27-28 | long division is the remainder: whenever p = q*G + r with a remainder of 32 bits, r is what Remainder computes |
| `ChecksumTheory.RegisterBits` | src/common/crc32.cpp:44-49 | feeding bytes is feeding their bits one at a time, least significant first |
| `ChecksumTheory.RegisterConcat` | src/common/crc32.cpp:44-49 | streaming: updating with two pieces is updating with their concatenation |
| `ChecksumTheory.BitRegisterXor` | src/common/crc32.cpp:27-29 | the register is linear in start value and message together |
| `ChecksumTheory.ChecksumAffine` | src/common/crc32.cpp:44-57 | for equal lengths, crc(a^b^c) = crc(a)^crc(b)^crc(c) |
| `ChecksumTheory.ShortErrorSeen` | src/common/crc32.cpp:27-29 | a non-zero pattern of at most 32 bits never leaves a zero register |
| `ChecksumTheory.RegisterInjective` | src/common/crc32.cpp:44-49 | for fixed data, different registers stay different |
| `ChecksumTheory.BurstChangesRegister` | src/common/crc32.cpp:44-49 | two messages of any length that differ within 32 consecutive bits end in different registers |
| `ChecksumTheory.BurstChangesChecksum` | src/common/crc32.cpp:53-57 | and so have different checksums |
| `ChecksumTheory.ResidueCharacterises` | src/transfer/protocol.cpp:78-80 | a four-byte trailer is the checksum of the data before it exactly when the register over both is one fixed residue |
| `ChecksumTheory.DivisionTracksRegister` | src/common/crc32.cpp:27-29 | one bit fed to the register is one step of long division |
| `ChecksumTheory.RegisterIsRemainder` | src/common/crc32.cpp:44-49 | the register over any bits is the remainder of the dividend they form |
| `ChecksumTheory.ChecksumIsRemainder` | src/common/crc32.cpp:44-57 | for every byte string, the checksum is the complemented, reflected remainder of division by the Castagnoli polynomial, with the register preset to ones |
| `CheckValues.ZerosChecksum` | tests/test_crc32.cpp:36-37 | 32 zero bytes have checksum 8A9136AA |
| `CheckValues.RisingChecksum` | tests/test_crc32.cpp:40-47 | the bytes 0 to 31 have checksum 46DD794E |
| `LittleEndian.Le32RoundTrip` | src/transfer/protocol.cpp:27-29 | four bytes of a word give back the word |
| `LittleEndian.FromLe32RoundTrip` | src/transfer/protocol.cpp:37-42 | a word read from four bytes is written back as the same bytes |
| `LittleEndian.LeRoundTrip` | src/transfer/protocol.cpp:30-32 | n bytes of a number that fits give back the number |
| `LittleEndian.FromLeRoundTrip` | src/transfer/protocol.cpp:43-48 | a number read from bytes fits and is written back as the same bytes |
| `LittleEndian.Le32InBits` | src/transfer/protocol.cpp:27-29 | the four bytes of a word are its bits 0-7, 8-15, 16-23 and 24-31 |
| `LittleEndian.TwoBytes` | src/transfer/protocol.cpp:33-36 | two bytes mean b0 + 256 b1 |
| `LittleEndian.EightBytes` | src/transfer/protocol.cpp:43-48 | eight bytes mean the sum of b_i 256^i |
| `WireIo.EncodeU16LE` | src/transfer/protocol.cpp:23-26 | patches exactly the two bytes at its place |
| `WireIo.EncodeU32LE` | src/transfer/protocol.cpp:27-29 | patches exactly the four bytes at its place with the little-endian digits |
| `WireIo.EncodeU64LE` | src/transfer/protocol.cpp:30-32 | patches exactly the eight bytes at its place with the little-endian digits |
| `WireIo.TwoDigits` | src/transfer/protocol.cpp:33-36 | the 16-bit decoder is the value of its two digits |
| `WireIo.DecodeU32LE` | src/transfer/protocol.cpp:37-42 | the or-loop gathers the word of its four bytes |
| `WireIo.DecodeU64LE` | src/transfer/protocol.cpp:43-48 | the loop gathers the number of its eight bytes |
| `Wire.AckIff` | src/transfer/protocol.cpp:93-111 | an acknowledgement is accepted with given flags exactly when it is the encoding of these flags |
| `Wire.DoneIff` | src/transfer/protocol.cpp:165-175 | the trailer is accepted exactly when it is the magic |
| `Wire.HeadIff` | src/transfer/protocol.cpp:113-150 | the fixed part of a record is accepted exactly when it is an encoding |
| `Wire.HeaderIff` | src/transfer/protocol.cpp:68-90 | a header is accepted as h exactly when it is the encoding of h up to the reserved bytes, with a matching checksum |
| `Wire.HeaderReencodes` | src/transfer/protocol.cpp:53-90 | with zero reserved bytes, acceptance as h is equality with the encoding of h |
| `Wire.HeaderRoundTrip` | src/transfer/protocol.cpp:53-90 | reading inverts writing |
| `Wire.HeaderBurstRejected` | src/transfer/protocol.cpp:53-90 | every non-empty change of a written header within 32 consecutive bits is rejected, also across the boundary at byte 28 |
| `Wire.FileHeaderIff` | src/transfer/protocol.cpp:122-162 | a record header is accepted with a given rest exactly when the stream is its encoding followed by that rest |
| `Wire.FileHeaderCut` | src/transfer/protocol.cpp:140-162 | a record header cut short makes the reader wait, for no more than what is missing |
| `Wire.HeaderIsLaidOut` | src/transfer/protocol.cpp:53-66 | every field of a written header at its offset, with the literal magic, two zero bytes and the checksum of the first 28 bytes |
| `Wire.AckIsLaidOut` | src/transfer/protocol.cpp:93-99 | the literal magic, then the flags |
| `Wire.AckMagicFirst` | src/transfer/protocol.cpp:101-111 | eight bytes are an acknowledgement exactly when they start with the literal magic |
| `Wire.RecordIsLaidOut` | src/transfer/protocol.cpp:117-138 | magic at 0, path length at 4, size at 6, checksum at 14, path at 18 |
| `Wire.DoneIsLaidOut` | src/transfer/protocol.cpp:165-169 | the four literal bytes of the trailer |
| `WireIo.WriteSessionHeader` | src/transfer/protocol.cpp:53-66 | pushes the encoding, or on failure a proper prefix of it |
| `WireIo.ReadSessionHeader` | src/transfer/protocol.cpp:68-90 | does what the pure reader does with the incoming bytes, whatever the short reads |
| `WireIo.WriteAck` | src/transfer/protocol.cpp:93-99 | pushes the encoding, or on failure a proper prefix of it |
| `WireIo.ReadAckFrom` | src/transfer/protocol.cpp:101-111 | does what the pure reader does with the incoming bytes |
| `WireIo.WriteFileHeader` | src/transfer/protocol.cpp:122-138 | refuses a path above 65535 bytes with nothing sent; else pushes the encoding in two parts, or a proper prefix |
| `WireIo.DecodeFixed` | src/transfer/protocol.cpp:144-150 | the decode calls on the fixed part are the pure decoder |
| `WireIo.ReadFileHeaderFrom` | src/transfer/protocol.cpp:140-162 | does what the pure reader does, with the trailing bytes left alone |
| `WireIo.WriteDone` | src/transfer/protocol.cpp:165-169 | pushes the trailer, or a proper prefix of it |
| `WireIo.ReadDone` | src/transfer/protocol.cpp:171-175 | consumes four bytes or all there are, and says whether they are the magic |
| `Net.Socket.Send` | src/net/socket.cpp:195-202 | one call: what the kernel takes, or an error and nothing taken; the count is narrowed to int |
| `Net.Socket.Recv` | src/net/socket.cpp:204-211 | one call: some of the incoming bytes, 0 at an orderly end, -1 at a broken one; the count is narrowed to int |
| `Transfers.PushAllMeaning` | src/net/socket.cpp:214-223 | up to 2 GiB a full send leaves all of the data on success and a proper prefix on failure, and without failures succeeds |
| `Transfers.PushAllAtOnce` | src/net/socket.cpp:214-223 | a kernel that takes everything at once is believed exactly up to 2 GiB; beyond, all has left and the send fails |
| `Transfers.SendFailureReported` | src/net/socket.cpp:195-223 | a failing call is reported by its number, an interruption too; a call that moves nothing fails without changing the error |
| `Net.Socket.SendAll` | src/net/socket.cpp:214-223 | the run is that of PushAll for every script and length; up to 2 GiB success means all of the data has left, failure a proper prefix; with a kernel that takes everything at once, success exactly up to 2 GiB |
| `Net.Socket.RecvAll` | src/net/socket.cpp:225-239 | up to 2 GiB it succeeds exactly when enough bytes are still to come, and then takes just these, however they are cut, else it says how many are missing; beyond, an uncut stream makes it fail |
| `Net.Socket.SendFromFdLinux` | src/net/socket.cpp:246-278 | terminates; the wire grows by exactly source[offset0..offset], on failure too; interrupted or not, it succeeds exactly when the file has the range |
| `Net.Socket.SendFromFdPortable` | src/net/socket.cpp:305-329 | the same on success; on failure the wire is ahead of the offset by less than 4 MiB |
| `Transfers.KernelRunMeaning` | src/net/socket.cpp:254-278 | for every script the kernel loop leaves a part of the range that ends at the offset it reports |
| `Transfers.CopyRunMeaning` | src/net/socket.cpp:308-328 | for every script the portable loop leaves a part of the range, less than 4 MiB beyond the offset it reports |
| `Transfers.UserRunMeaning` | src/transfer/sender.cpp:143-161 | for every script the userspace loop leaves a part of the file, less than 1 MiB beyond what the progress display was told |
| `Transfers.KernelFailureReported` | src/net/socket.cpp:263-274 | sendfile is repeated after an interruption; another failure is reported by its number, a call that moves nothing as io_error |
| `Transfers.CopyFailureReported` | src/net/socket.cpp:313-323 | so are the reads of the portable loop |
| `Transfers.UserFailureReported` | src/transfer/sender.cpp:152-154 | the userspace loop and the checksum loop report every failing read as io_error |
| `Transfers.KernelAsksForGibibyte` | src/net/socket.cpp:260-263 | one sendfile call moves at most 1 GiB |
| `Transfers.CopyAsksForFourMebibytes` | src/net/socket.cpp:308-314 | one read of the portable loop moves at most 4 MiB |
| `Transfers.UserAsksForMebibyte` | src/transfer/sender.cpp:143-152 | one read of the userspace loop moves at most 1 MiB |
| `Paths.GuardConfines` | src/transfer/receiver.cpp:44-56 | every component of an accepted path leads to a place at or below the output directory |
| `Paths.SplitPieces` | src/transfer/receiver.cpp:46-47 | splitting yields exactly the pieces between the bytes 2F |
| `Paths.SafeInBytes` | src/transfer/receiver.cpp:46-53 | a path is accepted exactly when it has no leading 2F and no piece 2E 2E or 5C |
| `Paths.StepInBytes` | src/transfer/receiver.cpp:48 | what one component does: 2F the root, 2E nothing, 2E 2E the parent, any other name a child |
| `Paths.LocateInBytes` | src/transfer/receiver.cpp:54 | a path is resolved piece by piece, from the root if it starts with 2F |
| `Paths.UpAndDown` | src/transfer/receiver.cpp:48 | 2E 2E 2F 78 leads to the sibling 78 |
| `Paths.JoinInBytes` | src/transfer/receiver.cpp:54 | joining puts one 2F between the parts unless there is one, and an absolute path replaces the directory |
| `Paths.BackslashAccepted` | src/transfer/receiver.cpp:48 | a backslash inside a name is accepted |
| `Receiver.SafeByComponents` | src/transfer/receiver.cpp:46-53 | the component scan finds exactly absolute paths and components ".." or "\" |
| `Receiver.ValidateAndJoin` | src/transfer/receiver.cpp:44-56 | succeeds exactly for paths without a leading 2F and without a piece 2E 2E or 5C, with the directory, one 2F and the path, else invalid_argument |
| `Delivery.PlaceSplits` | src/transfer/receiver.cpp:54-68 | the place of a target is its parent directory, under the output directory, plus one name |
| `Receiver.TakeChunk` | src/transfer/receiver.cpp:81-82 | one chunk: read in full and added to the checksum, or the bytes that are missing |
| `Receiver.StreamPayload` | src/transfer/receiver.cpp:77-87 | the chunk loop is the pure payload function, and tells the progress display exactly size bytes on success |
| `Receiver.ReceivePayloadToFile` | src/transfer/receiver.cpp:62-94 | refines the pure function: directory, truncation, chunks, checksum comparison |
| `Receiver.ReceiveRecord` | src/transfer/receiver.cpp:131-158 | one turn of the loop is one turn of the pure loop |
| `Receiver.ReceiveRecords` | src/transfer/receiver.cpp:130-166 | the record loop refines the pure one, whatever the segmentation |
| `Receiver.ReceiveFiles` | src/transfer/receiver.cpp:116-166 | output directory and records: the outcome of the pure session, and what the options promise: not_a_directory without one, stored items of their declared size and, with verify_crc, checksum, the summary in natural numbers modulo 2^64, every file in its place under output_dir, a reason for every failure |
| `Receiver.ReceiveStream` | src/transfer/receiver.cpp:99-174 | no acknowledgement byte before a valid header has been read, nothing else is ever sent, and the outcome is that of the pure session for every read schedule and keeps what the options promise; when the acknowledgement cannot be written, only the header has been consumed and nothing stored |
| `Receiver.Honours` | src/transfer/receiver.cpp:116-166 | the pure session keeps what the options promise |
| `SessionTheory.PayloadOutcome` | src/transfer/receiver.cpp:77-88 | a payload that succeeds has arrived whole: content, checksum register and unread bytes do not depend on the chunks |
| `SessionTheory.PayloadWaits` | src/transfer/receiver.cpp:77-87 | with a granting file system only a short stream stops it, waiting for no more than is missing |
| `SessionTheory.PayloadKeepsChunks` | src/transfer/receiver.cpp:77-87 | a payload cut short leaves its whole chunks of 1 MiB in the file |
| `SessionTheory.PayloadStops` | src/transfer/receiver.cpp:81-84 | a payload stops only because the stream has ended or a write was refused |
| `SessionTheory.FileArrives` | src/transfer/receiver.cpp:62-94 | a file received over any stream and file system has its declared size and, if asked for, checksum, and nothing else changed |
| `SessionTheory.FileComplete` | src/transfer/receiver.cpp:62-94 | a payload of full length is stored, and fails exactly on a checksum mismatch |
| `SessionTheory.RecordStored` | src/transfer/receiver.cpp:130-158 | an honest record is stored and counted, and the loop goes on with what follows it |
| `SessionTheory.RecordDamaged` | src/transfer/receiver.cpp:148-154 | a mismatching payload stops the session with bad_message and is not counted |
| `SessionTheory.RecordCut` | src/transfer/receiver.cpp:131-154 | a record cut anywhere stops the session, touching at most its own file |
| `SessionTheory.WholeIsMaximal` | src/transfer/receiver.cpp:130-161 | m records fit in k bytes exactly when m is at most Whole |
| `SessionTheory.CutRecords` | src/transfer/receiver.cpp:130-166 | the outcome of honest records cut after any number of bytes |
| `Delivery.RoomOpens` | src/transfer/receiver.cpp:65-72 | with room for the manifest, every file can be opened when its turn comes |
| `Delivery.DirsArrive` | src/transfer/receiver.cpp:66-69 | after a run the directories are the old ones and those above the files of the manifest |
| `Delivery.FilesArrive` | src/transfer/receiver.cpp:130-161 | after a run the files are the old ones overlaid with the manifest |
| `Delivery.FilesOfEach` | src/transfer/receiver.cpp:130-161 | each file of a manifest of unrelated paths has its own content |
| `Delivery.FilesOfOnly` | src/transfer/receiver.cpp:130-161 | the manifest touches exactly the places of its records |
| `Session.TotalIsSum` | src/transfer/sender.cpp:277-279 | the byte total is the natural sum of the sizes modulo 2^64 |
| `Delivery.SummaryMeaning` | src/transfer/receiver.cpp:156-158 | the summary has the file count, byte total mod 2^64 and path order of the manifest |
| `Delivery.HeaderFieldsIgnored` | src/transfer/receiver.cpp:105-130 | headers that agree in the file count are received alike |
| `Delivery.AnnouncedCount` | src/transfer/receiver.cpp:130-166 | with n files announced over honest records, success exactly when there are at least n; then just the first n are stored, four more bytes are consumed and the rest is unread |
| `Delivery.Truncation` | src/transfer/receiver.cpp:99-174 | an honest session of L bytes cut after k: success exactly when k >= L - 4; else exactly the records wholly contained are stored and listed |
| `Delivery.Delivered` | src/transfer/receiver.cpp:99-174 | an honest session into a place with room: success, exactly the manifest's files and the directories above them, nothing else changed, the right summary |
| `Delivery.RunThrough` | src/transfer/receiver.cpp:130-161 | honest records are stored one by one, whatever follows |
| `Delivery.SessionAround` | src/transfer/sender.cpp:293-309 | an honest session has the form that the damage results speak of |
| `Delivery.PayloadBurstRejected` | src/transfer/receiver.cpp:62-94 | damage within 32 consecutive bits of payload j, checks on: bad_message at record j, exactly the first j records in the summary, for every size |
| `Delivery.UncheckedDamageDelivered` | src/transfer/receiver.cpp:89 | where no checksum is asked for, damage of the same length is delivered |
| `Delivery.RecordsReadable` | src/transfer/protocol.cpp:122-162 | equal record areas of sound records come from equal records |
| `Delivery.SessionReadable` | src/transfer/protocol.cpp:53-162 | no two manifests share a byte stream, not even as prefixes of longer ones |
| `Safety.PlaceUnder` | src/transfer/receiver.cpp:44-56 | the place of an accepted record is under the output directory |
| `Safety.FileConfined` | src/transfer/receiver.cpp:62-94 | receiving a file, successfully or not, changes files only under the output directory and adds directories only at, below or above it |
| `Safety.RecordsGuaranteed` | src/transfer/receiver.cpp:130-166 | over any stream and any refusals of the file system: at most n iterations, all on success; each stored file has its declared size and checksum; summary and consumed bytes match the log; on success the files are the old ones overlaid with the log, on failure too except in the place of the failing record; no file outside the output directory changes, and directories are only added, at, below or above it |
| `Safety.TallyMeaning` | src/transfer/receiver.cpp:136-158 | stored plus skipped records make the iterations, and the summary counts exactly the stored ones |
| `Failures.FileFails` | src/transfer/receiver.cpp:72-92 | an accepted record fails only because its file cannot be opened, a write is refused, the stream ends, or with verification on a complete payload contradicts its checksum |
| `Failures.RecordsExplained` | src/transfer/receiver.cpp:130-155 | every failure of the record loop has its reason in the stream behind what was received, for any stream and file system |
| `Safety.SessionGuaranteed` | src/transfer/receiver.cpp:99-174 | the same for a whole arbitrary stream; without a valid header nothing changes at all |
| `Safety.SessionReplay` | src/transfer/receiver.cpp:70-71 | a session that succeeded, replayed over its own result, succeeds and changes no file |
| `Manifest.MakeRelPath` | src/transfer/sender.cpp:54-65 | the loop computes the relative path without leading "./" |
| `Manifest.ResolveOnDisk` | src/transfer/sender.cpp:167-185 | finds what the specification finds, and sets no_such_file exactly when there is nothing |
| `Manifest.CandidateHasSize` | src/transfer/sender.cpp:175-182 | what is found among several sources is a regular file of the declared size |
| `Manifest.WalkedFileRoundTrip` | src/transfer/sender.cpp:54-65 | for a file below a single source directory, the manifest path lists its names and ResolveOnDisk leads back to it |
| `SeveralSources.OwnCandidate` | src/transfer/sender.cpp:176 | parent path joined with name leads to the file itself |
| `SeveralSources.FileSourceName` | src/transfer/sender.cpp:203-211 | without a strip prefix a file source is listed by its name |
| `SeveralSources.FirstMatchFound` | src/transfer/sender.cpp:175-182 | the first source with a matching neighbour decides |
| `SeveralSources.ResolvesOwnFile` | src/transfer/sender.cpp:175-182 | the entry of source i resolves to a file of the right size, and to the right file exactly when no other file of that name and size lies beside the first match |
| `SeveralSources.FoundExactlyWhen` | src/transfer/sender.cpp:175-182 | for several sources of any kind, any prefix and any entry: a file is found exactly when it lies beside the first source that has such a file at all |
| `SeveralSources.WalkedAmongSeveral` | src/transfer/sender.cpp:175-182 | a file walked in a directory among several sources is found again exactly when the first matching source lies directly in that directory |
| `SeveralSources.StrippedFileFoundExactlyWhen` | src/transfer/sender.cpp:57-63 | with an existing prefix and one source directory, a walked file is found again exactly when the prefix is as deep as the directory, or deeper and sharing nothing with the file |
| `SeveralSources.UnprefixedFileFoundExactlyWhen` | src/transfer/sender.cpp:57-63 | with a prefix that does not exist, exactly when the file lies directly in the directory |
| `SeveralSources.WrongFileSent` | src/transfer/sender.cpp:164-185 | a concrete tree and two sources for which the content of a third file is sent |
| `Collect.LessTransitive` | src/transfer/sender.cpp:239-241 | the order of paths is transitive |
| `Collect.LessTotal` | src/transfer/sender.cpp:239-241 | the order of paths is total |
| `Collect.WalkDirectory` | src/transfer/sender.cpp:218-233 | the entries of exactly the files below the directory, in whatever order they are listed |
| `Collect.LessIsByteLess` | src/transfer/sender.cpp:239-241 | the order of paths: a proper prefix comes first, else the first byte that differs decides |
| `Collect.Sort` | src/transfer/sender.cpp:239-241 | a rearrangement in byte order |
| `Collect.Unique` | src/transfer/sender.cpp:242-246 | strictly increasing paths, the same path set, only entries that were there |
| `Collect.ScanPath` | src/transfer/sender.cpp:196-235 | the entries one source gives rise to |
| `Scanning.CollectFiles` | src/transfer/sender.cpp:192-248 | fails exactly when a source is missing; else strictly increasing in byte order; every entry describes a file of a source, and every file of every source (those below a directory only with recursion) has a path that fits it, with and without a strip prefix |
| `Collect.ScannedAllIff` | src/transfer/sender.cpp:196-235 | what is scanned is what some source gives rise to |
| `Collect.ManifestLists` | src/transfer/sender.cpp:192-248 | a manifest is exactly what, in strictly increasing order, has only entries of the sources and a path for each of them |
| `Collect.IncreasingDetermined` | src/transfer/sender.cpp:237-247 | the order of the manifest is decided by the scanned paths |
| `Collect.ManifestDetermined` | src/transfer/sender.cpp:237-247 | and with distinct scanned paths the whole manifest is |
| `Collect.ManifestFresh` | src/transfer/sender.cpp:192-248 | no manifest entry has an empty path or a checksum, and there are no more than were scanned |
| `Scanning.RelPathLeads` | src/transfer/sender.cpp:57-63 | with a prefix that exists, the manifest path leads from the prefix to the file |
| `Scanning.ManifestAccounts` | src/transfer/sender.cpp:192-248 | the manifest in terms of the tree and the options alone |
| `Scanning.OneFileFound` | src/transfer/sender.cpp:173 | one regular-file source is found again for every entry |
| `Scanning.OneFileListed` | src/transfer/sender.cpp:203-212 | one regular file without a prefix is listed once, under its name, with its size |
| `Scanning.OneFileSent` | src/transfer/sender.cpp:251-309 | and sent with its content and the checksum of it |
| `Sending.FilledServable` | src/transfer/sender.cpp:261-270 | filling in checksums changes neither what is found nor what can be sent |
| `Sending.SessionBytes` | src/transfer/sender.cpp:281-309 | header and body of sendable records are the session encoding |
| `Sending.SessionTold` | src/transfer/sender.cpp:281-309 | what leaves, in plain bytes: version 1, flag 1, number of files, sum of sizes modulo 2^64; each record at its offsets with the preset or computed checksum and the first bytes of the file found; the trailer |
| `Outbound.ZeroCopyRefinesUserspace` | src/transfer/sender.cpp:122-162 | for every file and declared size, without I/O errors, both paths send the same bytes and succeed exactly when the file is long enough, the kernel path also when interrupted; they differ in the error of a short file |
| `Outbound.AckFailureReported` | src/transfer/sender.cpp:353-355 | after the header, anything but an acknowledgement is invalid_argument, an early end is reported, and nothing more leaves |
| `Outbound.EntryFailureReported` | src/transfer/sender.cpp:363-370 | a path that is too long is refused before anything leaves; a file not found or not opened is no_such_file |
| `Outbound.ChecksumFailureReported` | src/transfer/sender.cpp:334-341 | a checksum fails on a missing file, a failing read, or an earlier error |
| `Outbound.ClosedSocketReported` | src/net/socket.cpp:248-251 | the kernel path refuses a socket that is not open with bad_file_descriptor |
| `Transfers.KernelLive` | src/net/socket.cpp:256-278 | interrupted any number of times but not failing, the kernel loop sends all there is of the range |
| `Transfers.CopyLive` | src/net/socket.cpp:305-329 | and so does the portable loop, whose reads may be interrupted |
| `Transfers.UserSteady` | src/transfer/sender.cpp:143-161 | without failures so does the userspace loop, which retries nothing |
| `Sender.Host.OpenForRead` | src/transfer/sender.cpp:68-85 | opens exactly what exists and is not locked |
| `Sender.CrcOfFd` | src/transfer/sender.cpp:97-117 | the checksum of the first size bytes, or of a shorter file, for every schedule of short reads |
| `Sender.SendFromFd` | src/net/socket.cpp:246-330 | either platform branch |
| `Sender.SendFileBytes` | src/transfer/sender.cpp:122-162 | success: exactly the first size bytes have left and the progress total is size; failure: a shorter prefix; without I/O errors success exactly when the file is long enough |
| `Sender.SendZeroCopy` | src/transfer/sender.cpp:126-141 | the same for the kernel path |
| `Sender.SendUserspace` | src/transfer/sender.cpp:143-161 | the same for the userspace path |
| `Sender.SendPayload` | src/transfer/sender.cpp:297-306 | finds, opens and sends one file |
| `Sender.SendEntry` | src/transfer/sender.cpp:293-307 | one record and payload, or a prefix |
| `Sender.SendBody` | src/transfer/sender.cpp:293-309 | all records and the trailer, or a prefix |
| `Sender.FillChecksum` | src/transfer/sender.cpp:263-269 | one checksum; also fails on an error that was there before |
| `Sender.FillMissing` | src/transfer/sender.cpp:331-343 | SendFiles: exactly the missing checksums are computed |
| `Sender.FillEvery` | src/transfer/sender.cpp:261-270 | SendPaths: every checksum is computed |
| `Sender.TotalSize` | src/transfer/sender.cpp:277-279 | the byte total mod 2^64 |
| `Sender.SendSession` | src/transfer/sender.cpp:345-380 | success means exactly the session bytes have left; failure a prefix; no byte after the header without a valid acknowledgement, and none before all of it has been read |
| `Sender.SendFilled` | src/transfer/sender.cpp:345-380 | the session of a manifest whose checksums have been filled in, byte for byte |
| `Sender.SendCollected` | src/transfer/sender.cpp:261-309 | checksums and session of a collected manifest |
| `Sender.SendFiles` | src/transfer/sender.cpp:324-381 | an empty manifest sends nothing and succeeds; else, byte for byte, the session of the manifest with preset checksums kept and missing ones computed, its header as soon as 32 bytes have left; without I/O errors success exactly when acknowledged, found, encodable and long enough |
| `Sender.SendPaths` | src/transfer/sender.cpp:251-320 | for every behaviour of socket and files, the run is that of SendFiles (FilesRun) on the collected manifest, with the same bytes; one regular file is sent under its name with its content |
| `Duplex.StepKeeps` | src/transfer/sender.cpp:281-309 | every step keeps the invariant (nothing lost or reordered, handshake order) and uses up as much work as it moves bytes |
| `Duplex.NeverStuck` | src/transfer/receiver.cpp:106-166 | for a non-empty manifest and all capacities of at least 1, a state where not both have finished has a move |
| `Duplex.DoneIsFinal` | src/transfer/receiver.cpp:106-166 | where both have finished nothing can move and the channels are empty |
| `Duplex.RunKeepsInv` | src/transfer/sender.cpp:281-309 | the invariant holds in every run, and its length is bounded by the work |
| `Duplex.RunsAreBounded` | src/transfer/sender.cpp:281-309 | every interleaving has at most 2L + 16 steps |
| `Duplex.Handshake` | src/transfer/sender.cpp:281-283 | in every reachable state: no record byte on its way before the whole acknowledgement was read, no acknowledgement byte before a valid header was read |
| `Duplex.EmptyManifestStalls` | src/transfer/sender.cpp:256-259 | with an empty manifest nothing ever moves: the sender has finished and the receiver waits for a header |
| `Duplex.DeliversExactlyWhen` | src/transfer/receiver.cpp:99-174 | a run that cannot go on has been received exactly when the manifest was not empty |
| `Duplex.RunGoesOn` | src/transfer/receiver.cpp:106-166 | every unfinished run can be continued |
| `Duplex.CompleteRunDelivers` | src/transfer/receiver.cpp:99-174 | every interleaving of a non-empty manifest that cannot go on has delivered it: bytes, acknowledgement, files, directories, summary |
| `EndToEnd.DirectoryScan` | src/transfer/sender.cpp:213-234 | the scan of a directory finds exactly the files below it |
| `EndToEnd.RecordIs` | src/transfer/sender.cpp:251-270 | record i is a file of the tree with its content and checksum |
| `EndToEnd.EveryFileListed` | src/transfer/sender.cpp:213-247 | no file is missing from the manifest |
| `EndToEnd.RecordsApart` | src/transfer/sender.cpp:237-247 | no record is another one or below it |
| `EndToEnd.DirectoryReady` | src/transfer/sender.cpp:251-320 | a receiver with an empty output directory is ready for whatever manifest the directory gives |
| `EndToEnd.FilesMirror` | src/transfer/receiver.cpp:130-161 | the files of the manifest are the tree, moved to the output directory |
| `EndToEnd.DirectoryCopied` | src/transfer/sender.cpp:251-320 | for a directory with a file, every complete run over any channels leaves exactly the files below it and the directories above them under the output directory, and everything else as it was |
| `EndToEnd.EmptyDirectory` | src/transfer/sender.cpp:256-259 | for a directory without files the wire stays as it is, the sender succeeds and the receiver fails at the end of the stream |
| `EndToEnd.DirectoryReceivedExactlyWhen` | src/transfer/sender.cpp:251-320 | a complete run has been received exactly when the directory has a file |
| `ZeroChecksum.ZeroChecksumExists` | src/common/crc32.cpp:44-57 | there is a file whose checksum is 0 |
| `ZeroChecksum.ZeroFieldSent` | src/transfer/sender.cpp:334-339 | for it the sender computes the field 0 |
| `ZeroChecksum.UnseenDamageDelivered` | src/transfer/receiver.cpp:89 | and the receiver delivers anything of the same length for it, with verification on |
| `EndToEnd.DirectoryExample` | src/transfer/sender.cpp:213-247 | a concrete directory and output directory meet the hypotheses of DirectoryCopied, and with them those of Ready and Legal |

## Left out

- The macOS `sendfile` branch and the Windows branches of `SendFromFd`, `OpenForRead` and the read loops.
- Connecting, listening, name lookup, descriptor lifetime, socket options, and the thread-local buffers' reuse.
- The real file system: symbolic links and `follow_symlinks`, permissions beyond granted or refused, unreadable directories, failing `create_directories` other than through a file in the way. `..` is resolved lexically.
- `fs::weakly_canonical` in `fs::relative`: paths are resolved lexically against the tree.
- Paths that contain a NUL byte, which the C library would cut short.
- Two of the four check values in `tests/test_crc32.cpp`, those of 32 bytes FF and of the falling bytes.
- Elapsed time, logging and the progress display, except for the amount it is told.
- Reserved flags, and sender success as evidence of receiver success: there is no final acknowledgement.
- Net.Socket.RecvAll: beyond 2 GiB only the failure on an uncut stream is stated, not what the buffer then holds.
- Collect.Sort: an insertion sort stands for `std::sort`; only ordered rearrangement is used.
- Collect.Unique: which of several entries with one path survives is not decided, as the sort is not stable.
- Sender.SendFiles: the manifest has fewer than 2^64 entries.
- Sender.SendPaths: the scan finds fewer than 2^64 entries.
- Delivery.Delivered: asks that the file system refuses nothing; `Safety.SessionGuaranteed` covers refusals.
- Duplex.CompleteRunDelivers: channels and file systems do not fail; `Delivery.Truncation` and `Safety.SessionGuaranteed` cover a stream that ends early or is damaged.
- EndToEnd.DirectoryCopied: one source directory with a file and without strip prefix, whose files can be opened and whose paths have no name that is `\` and at most 65535 bytes; the sending of other manifests is covered by `Delivery.Delivered`.
