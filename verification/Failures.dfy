/** Why a session fails, for every stream and every file system. */
module Failures {
  import opened BitStrings
  import opened Crc32c
  import opened Wire
  import opened Paths
  import opened Disk
  import opened Transfers
  import opened Session
  import opened SessionTheory
  import opened Delivery
  import opened Safety

  /** The reasons for which an accepted record header does not lead to a stored file: an unsafe path; a file that cannot
      be opened; a write that is refused; a stream that ends within the payload; or, if verification is on and the
      record has a checksum, a complete payload that contradicts it. */
  predicate WhyNotStored(env: Env, e: FileEntry, rest: seq<byte>, ec: Errc, after: seq<byte>, need: nat) {
    if !Safe(e.relPath) then ec == InvalidArgument && after == rest && need == 0
    else
      (ec == PermissionDenied && after == rest && need == 0) ||
      (ec == IoError && Suffix(after, rest) && need == 0) ||
      (ec == env.eof && after == [] && |rest| < e.size && 0 < need <= e.size - |rest|) ||
      (ec == BadMessage && |rest| >= e.size && after == rest[e.size..] && need == 0 && env.verify && e.crc32 != 0 &&
       Checksum(rest[..e.size]) != e.crc32)
  }

  /** The reasons for which the record loop stops in front of left. */
  predicate WhyStopped(env: Env, left: seq<byte>, ec: Errc, after: seq<byte>, need: nat) {
    match ReadFileHeader(left)
    case Starved(m) => ec == env.eof && after == [] && need == m
    case Refused(rest) => ec == InvalidArgument && after == rest && need == 0
    case Accepted(e, rest) => e.relPath != [] && WhyNotStored(env, e, rest, ec, after, need)
  }

  lemma FileFails(env: Env, e: FileEntry, rest: seq<byte>, store: Store, ec: Errc)
    requires Safe(e.relPath) && !Receive(env, e, Expected(env, e), rest, store, ec).ok
    ensures var l := Receive(env, e, Expected(env, e), rest, store, ec); WhyNotStored(env, e, rest, l.ec, l.rest,
                                                                                      l.need)
  {
    hide Safe, Payload, MakeParent, Place, Receive, Register;
    var (ok, store') := Truncated(env, store, e);
    var at := Place(env, e);
    if ok {
      ReceiveUnfolds(env, e, Expected(env, e), rest, store, ec);
      if Payload(env, at, e.size, rest, store', ONES, ec).ok {
        PayloadOutcome(env, at, e.size, rest, store', ONES, ec);
      } else {
        PayloadStops(env, at, e.size, rest, store', ONES, ec);
      }
    } else {
      ReceiveRefused(env, e, Expected(env, e), rest, store, ec);
    }
  }

  ghost predicate Explained(env: Env, input: seq<byte>, r: Run) {
    AllKept(env, r.log) && EncodeLog(env, r.log) <= input &&
    (!r.ok ==> WhyStopped(env, input[|EncodeLog(env, r.log)|..], r.ec, r.rest, r.need))
  }

  lemma ExplainedAtOnce(env: Env, input: seq<byte>, r: Run)
    requires r.log == [] && (!r.ok ==> WhyStopped(env, input, r.ec, r.rest, r.need))
    ensures Explained(env, input, r)
  {
    hide WhyStopped;
    assert input[0..] == input;
  }

  lemma ExplainedBehind(env: Env, item: Item, input: seq<byte>, rest: seq<byte>, r: Run)
    requires Kept(env, item) && input == EncodeItem(item) + rest && Explained(env, rest, r)
    ensures Explained(env, input, Logged(item, r))
  {
    hide WhyStopped, Kept, EncodeItem;
    ItemInFront(env, item, r.log, input, rest);
  }

  /** Every failure of the record loop has one of these reasons, whatever has been received before. */
  lemma {:induction false} RecordsExplained(env: Env, n: nat, input: seq<byte>, store: Store, summary: Summary,
                                            ec: Errc)
    ensures Explained(env, input, Records(env, n, input, store, summary, ec))
    decreases n
  {
    hide Safe, ReceiveFile, Explained, EncodeFileHeader, Kept, Place, Target, Count, Expected, ReadFileHeader;
    var r := Records(env, n, input, store, summary, ec);
    if n == 0 {
      ExplainedAtOnce(env, input, r);
    } else {
      match ReadFileHeader(input)
      case Starved(_) => ExplainedAtOnce(env, input, r);
      case Refused(_) => ExplainedAtOnce(env, input, r);
      case Accepted(e, rest) =>
        FileHeaderIff(input, e, rest);
        if e.relPath == [] {
          RecordsExplained(env, n - 1, rest, store, summary, ec);
          SkippedIsKept(e);
          ExplainedBehind(env, Skipped(e), input, rest, Records(env, n - 1, rest, store, summary, ec));
        } else if !Safe(e.relPath) {
          ExplainedAtOnce(env, input, r);
        } else {
          var l := Receive(env, e, Expected(env, e), rest, store, ec);
          if !l.ok {
            FileFails(env, e, rest, store, ec);
            ExplainedAtOnce(env, input, r);
          } else {
            var summary' := Count(summary, e.size, Target(env, e));
            RecordsExplained(env, n - 1, l.rest, l.store, summary', l.ec);
            StoredIsKept(env, e, input, rest, store, ec);
            ExplainedBehind(env, Stored(e, OnDisk(l.store, Place(env, e))), input, l.rest,
                            Records(env, n - 1, l.rest, l.store, summary', l.ec));
          }
        }
    }
  }

  lemma SkippedIsKept(e: FileEntry)
    requires e.relPath == []
    ensures forall env :: Kept(env, Skipped(e))
    ensures EncodeItem(Skipped(e)) == EncodeFileHeader(e)
  {
    hide EncodeFileHeader;
  }

  lemma StoredIsKept(env: Env, e: FileEntry, input: seq<byte>, rest: seq<byte>, store: Store, ec: Errc)
    requires 0 < |e.relPath| <= 0xFFFF && Safe(e.relPath) && input == EncodeFileHeader(e) + rest
    requires Receive(env, e, Expected(env, e), rest, store, ec).ok
    ensures var l := Receive(env, e, Expected(env, e), rest, store, ec);
            var item := Stored(e, OnDisk(l.store, Place(env, e)));
            Kept(env, item) && input == EncodeItem(item) + l.rest
  {
    hide Safe, Receive, EncodeFileHeader, Place, Target, Expected, Matches, Arrive, Openable;
    FileArrives(env, e, Expected(env, e), rest, store, ec);
    var l, content := Receive(env, e, Expected(env, e), rest, store, ec), rest[..e.size];
    ArriveFiles(env, store, Source(e, content));
    assert rest == content + l.rest;
  }
}
