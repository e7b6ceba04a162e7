/** Sender and receiver together: interleaved steps over two bounded channels, without failures. */
module Duplex {
  import opened BitStrings
  import opened Wire
  import opened Disk
  import opened Transfers
  import opened Session
  import opened SessionTheory
  import opened Delivery

  /** A session to be carried out, and the capacities of the channels to the receiver and back. */
  datatype Config = Config(env: Env, createDir: bool, xs: seq<Source>, store: Store, summary: Summary,
                           downCap: nat, upCap: nat)

  predicate Writable(c: Config) {
    Encodable(c.xs) && |c.xs| < 0x1_0000_0000_0000_0000
  }

  ghost predicate Provided(c: Config) {
    c.downCap >= 1 && c.upCap >= 1 && Writable(c) && Ready(c.env, c.createDir, c.store, c.xs)
  }

  /** There is something to send: for an empty manifest the sender writes nothing and reads nothing. */
  ghost predicate Legal(c: Config) {
    Provided(c) && c.xs != []
  }

  /** Everything the sender will write. */
  function Script(c: Config): seq<byte>
    requires Writable(c)
  {
    if c.xs == [] then [] else EncodeSession(c.xs)
  }

  /** The receiver after the given bytes: need is how many more the read it is blocked in waits for. */
  function After(c: Config, got: seq<byte>): Run {
    Receiving(c.env, c.createDir, got, c.store, c.summary, Clear)
  }

  /** pushed: bytes the sender has written; got: bytes the receiver has read; acked: acknowledgement bytes
      the receiver has written; heard: acknowledgement bytes the sender has read. */
  datatype State = State(pushed: nat, down: seq<byte>, got: seq<byte>, acked: nat, up: seq<byte>, heard: seq<byte>)

  const START := State(0, [], [], 0, [], [])

  /** One system call that moves n bytes. */
  datatype Move = SenderWrites(n: nat) | ReceiverReads(n: nat) | ReceiverWrites(n: nat) | SenderReads(n: nat)

  /** The sender stops after its header until it has read a valid acknowledgement. */
  function Limit(c: Config, s: State): nat
    requires Writable(c)
  {
    if c.xs == [] || ReadAck(s.heard).Accepted? then |Script(c)| else 32
  }

  predicate Acknowledging(s: State) {
    ReadHeader(s.got).Accepted? && s.acked < 8
  }

  predicate Enabled(c: Config, s: State, m: Move)
    requires Writable(c)
  {
    m.n > 0 &&
    match m
    case SenderWrites(n) => s.pushed + n <= Limit(c, s) && |s.down| + n <= c.downCap
    case ReceiverReads(n) => !Acknowledging(s) && n <= |s.down| && n <= After(c, s.got).need
    case ReceiverWrites(n) => Acknowledging(s) && s.acked + n <= 8 && |s.up| + n <= c.upCap
    case SenderReads(n) => c.xs != [] && s.pushed >= 32 && n <= |s.up| && |s.heard| + n <= 8
  }

  function Do(c: Config, s: State, m: Move): State
    requires Writable(c) && Enabled(c, s, m)
  {
    match m
    case SenderWrites(n) => s.(pushed := s.pushed + n, down := s.down + Slice(Script(c), s.pushed, s.pushed + n))
    case ReceiverReads(n) => s.(got := s.got + s.down[..n], down := s.down[n..])
    case ReceiverWrites(n) => s.(acked := s.acked + n, up := s.up + Slice(EncodeAck(0), s.acked, s.acked + n))
    case SenderReads(n) => s.(heard := s.heard + s.up[..n], up := s.up[n..])
  }

  predicate SenderDone(c: Config, s: State)
    requires Writable(c)
  {
    (c.xs == [] || ReadAck(s.heard).Accepted?) && s.pushed == |Script(c)|
  }

  predicate ReceiverDone(c: Config, s: State) {
    ReadHeader(s.got).Accepted? && s.acked == 8 && After(c, s.got).need == 0
  }

  // ---- the invariant ----

  /** The first k bytes of script have been written; those not read yet are in the queue, in order. */
  predicate Carried(script: seq<byte>, read: seq<byte>, queue: seq<byte>, k: nat) {
    k <= |script| && |read| + |queue| == k && read + queue == script[..k]
  }

  lemma CarriedMore(script: seq<byte>, read: seq<byte>, queue: seq<byte>, k: nat, n: nat)
    requires Carried(script, read, queue, k) && k + n <= |script|
    ensures Carried(script, read, queue + Slice(script, k, k + n), k + n)
  {
    assert read + (queue + script[k..k + n]) == read + queue + script[k..k + n];
  }

  lemma CarriedOn(script: seq<byte>, read: seq<byte>, queue: seq<byte>, k: nat, n: nat)
    requires Carried(script, read, queue, k) && n <= |queue|
    ensures Carried(script, read + queue[..n], queue[n..], k)
  {
    assert read + queue[..n] + queue[n..] == read + queue;
  }

  lemma CarriedPrefix(script: seq<byte>, read: seq<byte>, queue: seq<byte>, k: nat)
    requires Carried(script, read, queue, k)
    ensures read <= script && |read| + |queue| == k <= |script|
    ensures |read| == |script| ==> read == script
  {
    assert read == (read + queue)[..|read|];
  }

  /** Nothing is lost, reordered or invented; no record byte before the whole acknowledgement has been read;
      no acknowledgement byte before the whole header has been read. */
  predicate Inv(c: Config, s: State) {
    && Writable(c)
    && Carried(Script(c), s.got, s.down, s.pushed)
    && Carried(EncodeAck(0), s.heard, s.up, s.acked)
    && (s.pushed > 32 ==> |s.heard| == 8)
    && (s.acked > 0 ==> |s.got| >= 32)
    && (s.acked < 8 ==> |s.got| <= 32)
    && |s.down| <= c.downCap && |s.up| <= c.upCap
  }

  lemma AckPrefixes(heard: seq<byte>)
    requires heard <= EncodeAck(0)
    ensures ReadAck(heard).Accepted? <==> heard == EncodeAck(0)
    ensures ReadAck(heard).Accepted? <==> |heard| == 8
    ensures ReadAck(heard).Accepted? ==> ReadAck(heard).value == 0
  {
    if |heard| == 8 {
      assert heard[..8] == heard == EncodeAck(0);
      AckIff(heard, 0);
    }
    hide EncodeAck, DecodeAck;
  }

  lemma HeaderPrefixes(c: Config, got: seq<byte>)
    requires Writable(c) && got <= Script(c)
    ensures ReadHeader(got).Accepted? <==> |got| >= 32
  {
    hide EncodeHeader, DecodeHeader, EncodeRecords, EncodeDone;
    if |got| >= 32 {
      HeaderRoundTrip(HeaderFor(c.xs));
      assert got[..32] == Script(c)[..32] == EncodeHeader(HeaderFor(c.xs));
    }
  }

  /** The receiver waits for nothing exactly when it has everything, and never for more than there is. */
  lemma Demand(c: Config, got: seq<byte>)
    requires Legal(c) && got <= Script(c)
    ensures var need := After(c, got).need;
            (need == 0 <==> |got| == |Script(c)|) && need <= |Script(c)| - |got|
  {
    hide Ready, Receiving, EncodeSession, Whole;
    Truncation(c.env, c.createDir, c.xs, |got|, c.store, c.summary, Clear);
    assert got == EncodeSession(c.xs)[..|got|];
  }

  predicate Facts(c: Config, s: State)
    requires Writable(c)
  {
    (ReadAck(s.heard).Accepted? <==> |s.heard| == 8) &&
    (ReadHeader(s.got).Accepted? <==> |s.got| >= 32) &&
    (After(c, s.got).need == 0 <==> |s.got| == |Script(c)|) && After(c, s.got).need <= |Script(c)| - |s.got| &&
    32 <= |Script(c)| && |s.got| + |s.down| == s.pushed <= |Script(c)| && |s.heard| + |s.up| == s.acked <= 8 &&
    (|s.got| == |Script(c)| ==> s.got == Script(c)) && (|s.heard| == 8 ==> s.heard == EncodeAck(0))
  }

  lemma InvFacts(c: Config, s: State)
    requires Legal(c) && Inv(c, s)
    ensures Facts(c, s)
  {
    hide Ready, EncodeAck, After, Carried, Writable;
    CarriedPrefix(Script(c), s.got, s.down, s.pushed);
    CarriedPrefix(EncodeAck(0), s.heard, s.up, s.acked);
    assert |Script(c)| >= 32 by { hide EncodeHeader, EncodeRecords, EncodeDone; }
    hide Script;
    AckPrefixes(s.heard);
    HeaderPrefixes(c, s.got);
    Demand(c, s.got);
  }

  lemma StartsWell(c: Config)
    requires Legal(c)
    ensures Inv(c, START)
  {
    hide Ready, Script, EncodeAck;
  }

  /** Bytes still to be moved into and out of the channels. */
  function Left(c: Config, s: State): int
    requires Writable(c)
  {
    2 * (|Script(c)| - s.pushed) + |s.down| + 2 * (8 - s.acked) + |s.up|
  }

  /** A step keeps the invariant and uses up as much work as it moves bytes. */
  predicate Kept(c: Config, s: State, m: Move)
    requires Writable(c) && Enabled(c, s, m)
  {
    Inv(c, Do(c, s, m)) && Left(c, Do(c, s, m)) == Left(c, s) - m.n
  }

  lemma SenderWritesKept(c: Config, s: State, n: nat)
    requires Legal(c) && Inv(c, s) && Enabled(c, s, SenderWrites(n))
    ensures Kept(c, s, SenderWrites(n))
  {
    hide Ready, EncodeAck, After, Script, ReadAck, ReadHeader, Writable, Carried, Slice;
    InvFacts(c, s);
    CarriedMore(Script(c), s.got, s.down, s.pushed, n);
  }

  lemma ReceiverReadsKept(c: Config, s: State, n: nat)
    requires Legal(c) && Inv(c, s) && Enabled(c, s, ReceiverReads(n))
    ensures Kept(c, s, ReceiverReads(n))
  {
    hide Ready, EncodeAck, After, Script, ReadAck, ReadHeader, Writable, Carried, Slice;
    InvFacts(c, s);
    CarriedOn(Script(c), s.got, s.down, s.pushed, n);
  }

  lemma ReceiverWritesKept(c: Config, s: State, n: nat)
    requires Legal(c) && Inv(c, s) && Enabled(c, s, ReceiverWrites(n))
    ensures Kept(c, s, ReceiverWrites(n))
  {
    hide Ready, EncodeAck, After, Script, ReadAck, ReadHeader, Writable, Carried, Slice;
    InvFacts(c, s);
    CarriedMore(EncodeAck(0), s.heard, s.up, s.acked, n);
  }

  lemma SenderReadsKept(c: Config, s: State, n: nat)
    requires Legal(c) && Inv(c, s) && Enabled(c, s, SenderReads(n))
    ensures Kept(c, s, SenderReads(n))
  {
    hide Ready, EncodeAck, After, Script, ReadAck, ReadHeader, Writable, Carried, Slice;
    InvFacts(c, s);
    CarriedOn(EncodeAck(0), s.heard, s.up, s.acked, n);
  }

  lemma StepKeeps(c: Config, s: State, m: Move)
    requires Legal(c) && Inv(c, s) && Enabled(c, s, m)
    ensures Kept(c, s, m)
  {
    hide Ready, Writable, Inv, Kept, Enabled;
    match m
    case SenderWrites(n) => SenderWritesKept(c, s, n);
    case ReceiverReads(n) => ReceiverReadsKept(c, s, n);
    case ReceiverWrites(n) => ReceiverWritesKept(c, s, n);
    case SenderReads(n) => SenderReadsKept(c, s, n);
  }

  // ---- progress ----

  /** A move for every state that is not final. */
  function Pick(c: Config, s: State): Move
    requires Writable(c)
  {
    if Enabled(c, s, SenderWrites(1)) then SenderWrites(1)
    else if Enabled(c, s, ReceiverReads(1)) then ReceiverReads(1)
    else if Enabled(c, s, ReceiverWrites(1)) then ReceiverWrites(1)
    else SenderReads(1)
  }

  /** No deadlock: a state from which nothing can move is one where both sides have finished. */
  lemma NeverStuck(c: Config, s: State)
    requires Legal(c) && Inv(c, s) && !(SenderDone(c, s) && ReceiverDone(c, s))
    ensures Enabled(c, s, Pick(c, s))
  {
    hide Ready, EncodeAck, After, Script, ReadAck, ReadHeader, Writable, Carried, Slice;
    InvFacts(c, s);
  }

  /** And where both have finished, nothing can move. */
  lemma DoneIsFinal(c: Config, s: State, m: Move)
    requires Legal(c) && Inv(c, s) && SenderDone(c, s) && ReceiverDone(c, s)
    ensures !Enabled(c, s, m)
    ensures s.got == Script(c) && s.heard == EncodeAck(0) && s.down == [] && s.up == []
  {
    hide Ready, EncodeAck, After, Script, ReadAck, ReadHeader, Writable, Carried, Slice;
    InvFacts(c, s);
  }

  // ---- whole runs ----

  ghost predicate IsRun(c: Config, run: seq<State>)
    requires Writable(c)
  {
    run != [] && run[0] == START &&
    forall i :: 0 <= i < |run| - 1 ==> Steps(c, run[i], run[i + 1])
  }

  ghost predicate Steps(c: Config, s: State, t: State)
    requires Writable(c)
  {
    exists m :: Enabled(c, s, m) && t == Do(c, s, m)
  }

  /** What comes before a moment of a run is a run. */
  lemma PrefixIsRun(c: Config, run: seq<State>, n: nat)
    requires Writable(c) && IsRun(c, run) && 0 < n <= |run|
    ensures IsRun(c, run[..n])
  {
    hide Steps, Writable;
    var prefix := run[..n];
    forall k | 0 <= k < |prefix| - 1 ensures Steps(c, prefix[k], prefix[k + 1]) {
      assert Steps(c, run[k], run[k + 1]);
    }
  }

  /** A step keeps the invariant and uses up some of the finite work there is. */
  lemma StepAdvances(c: Config, s: State, t: State)
    requires Legal(c) && Inv(c, s) && Steps(c, s, t)
    ensures Inv(c, t) && Left(c, t) < Left(c, s)
  {
    hide Ready, Writable, Inv, Enabled, Do, Left, Script;
    var m :| Enabled(c, s, m) && t == Do(c, s, m);
    StepKeeps(c, s, m);
    MovesSomething(c, s, m);
  }

  lemma LastStep(c: Config, run: seq<State>)
    requires Writable(c) && IsRun(c, run) && |run| > 1
    ensures Steps(c, run[|run| - 2], run[|run| - 1])
  {
    hide Steps, Writable;
    assert Steps(c, run[|run| - 2], run[|run| - 2 + 1]);
  }

  /** In every run the invariant holds, and each step uses up the finite work there is. */
  lemma {:induction false} RunKeepsInv(c: Config, run: seq<State>)
    requires Legal(c) && IsRun(c, run)
    ensures Inv(c, run[|run| - 1])
    ensures Left(c, run[|run| - 1]) + |run| - 1 <= 2 * |Script(c)| + 16
    decreases |run|
  {
    hide Ready, Writable, Inv, Left, Script, Steps;
    if |run| == 1 {
      StartsWell(c);
      StartLeft(c);
    } else {
      PrefixIsRun(c, run, |run| - 1);
      LastStep(c, run);
      RunKeepsInv(c, run[..|run| - 1]);
      StepAdvances(c, run[|run| - 2], run[|run| - 1]);
    }
  }

  lemma MovesSomething(c: Config, s: State, m: Move)
    requires Writable(c) && Enabled(c, s, m)
    ensures m.n >= 1
  {
  }

  lemma StartLeft(c: Config)
    requires Writable(c)
    ensures Left(c, START) == 2 * |Script(c)| + 16
  {
  }

  lemma NothingLeftOver(c: Config, s: State)
    requires Legal(c) && Inv(c, s)
    ensures Left(c, s) >= 0
  {
    hide Ready, Script;
  }

  /** Every interleaving is finite. */
  lemma RunsAreBounded(c: Config, run: seq<State>)
    requires Legal(c) && IsRun(c, run)
    ensures |run| <= 2 * |Script(c)| + 17
  {
    hide Ready, Writable, Inv, Left, Script;
    RunKeepsInv(c, run);
    NothingLeftOver(c, run[|run| - 1]);
  }

  /** The handshake, at every moment of every run: no record byte is on its way before the sender has read the
      whole acknowledgement, and no acknowledgement byte before a valid header has been read. */
  lemma Handshake(c: Config, run: seq<State>, i: nat)
    requires Legal(c) && IsRun(c, run) && i < |run|
    ensures run[i].pushed > 32 ==> run[i].heard == EncodeAck(0)
    ensures run[i].acked > 0 ==> ReadHeader(run[i].got).Accepted?
  {
    hide Ready, EncodeAck, After, Script, ReadAck, ReadHeader, Writable, Carried, Steps;
    PrefixIsRun(c, run, i + 1);
    RunKeepsInv(c, run[..i + 1]);
    InvFacts(c, run[i]);
  }

  ghost predicate Quiet(c: Config, s: State)
    requires Writable(c)
  {
    forall m :: !Enabled(c, s, m)
  }

  /** Apart from the output directory, exactly the directories above the files have been made. */
  ghost predicate DirsMade(c: Config, store: Store) {
    forall d :: d in store.dirs <==> d in Prepared(c.env, c.createDir, c.store).dirs || AbovePlace(c.env, c.xs, d)
  }

  /** Every interleaving that cannot go on has delivered the manifest: the receiver has read exactly the
      session and succeeded, its files are the manifest's, and the sender has had its acknowledgement. */
  lemma CompleteRunDelivers(c: Config, run: seq<State>)
    requires Legal(c) && IsRun(c, run)
    requires Quiet(c, run[|run| - 1])
    ensures var s := run[|run| - 1]; var r := After(c, s.got);
            SenderDone(c, s) && ReceiverDone(c, s) && s.got == Script(c) && s.heard == EncodeAck(0) &&
            s.down == [] && s.up == [] &&
            r.ok && r.ec == Clear && r.store.files == c.store.files + FilesOf(c.env, c.xs) && DirsMade(c, r.store) &&
            Summarises(c.env, c.summary, c.xs, r.summary)
  {
    hide Inv, Enabled, Steps, Ready, Receiving, AbovePlace, Prepared, FilesOf, Summarises, SenderDone, ReceiverDone,
      EncodeSession, EncodeAck;
    var s := run[|run| - 1];
    RunKeepsInv(c, run);
    if !(SenderDone(c, s) && ReceiverDone(c, s)) {
      NeverStuck(c, s);
    } else {
      DoneIsFinal(c, s, SenderWrites(1));
      Delivered(c.env, c.createDir, c.xs, c.store, c.summary, Clear);
    }
  }

  /** With nothing to send, nothing ever moves: the sender has finished at once, and the receiver waits for a header
      that never comes. */
  lemma EmptyManifestStalls(c: Config, run: seq<State>)
    requires Provided(c) && c.xs == [] && IsRun(c, run)
    ensures run == [START] && Quiet(c, START) && SenderDone(c, START) && !ReceiverDone(c, START)
    ensures var r := After(c, []); !r.ok && r.ec == c.env.eof && r.need == 32 && r.store == c.store
  {
    hide Ready;
    assert |run| == 1 || Steps(c, run[0], run[0 + 1]);
  }

  /** A run that cannot go on has delivered the manifest exactly when there was something to send. */
  lemma DeliversExactlyWhen(c: Config, run: seq<State>)
    requires Provided(c) && IsRun(c, run) && Quiet(c, run[|run| - 1])
    ensures var s := run[|run| - 1]; SenderDone(c, s) && (ReceiverDone(c, s) <==> c.xs != [])
    ensures After(c, run[|run| - 1].got).ok <==> c.xs != []
  {
    hide Ready, Inv, Enabled, Steps, Receiving, FilesOf, Summarises, SenderDone, ReceiverDone, EncodeSession, Writable;
    if c.xs == [] {
      EmptyManifestStalls(c, run);
    } else {
      CompleteRunDelivers(c, run);
    }
  }

  /** A run that has not ended can always go on, whatever has happened so far. */
  lemma RunGoesOn(c: Config, run: seq<State>)
    requires Legal(c) && IsRun(c, run)
    requires var s := run[|run| - 1]; !(SenderDone(c, s) && ReceiverDone(c, s))
    ensures var s := run[|run| - 1]; Enabled(c, s, Pick(c, s)) && IsRun(c, run + [Do(c, s, Pick(c, s))])
  {
    hide Ready, Writable, Inv, Enabled, Do, SenderDone, ReceiverDone, Pick, Script;
    var s := run[|run| - 1];
    RunKeepsInv(c, run);
    NeverStuck(c, s);
    var next := run + [Do(c, s, Pick(c, s))];
    forall i | 0 <= i < |next| - 1 ensures Steps(c, next[i], next[i + 1]) {
      if i < |run| - 1 {
        assert Steps(c, run[i], run[i + 1]);
      }
    }
  }
}
