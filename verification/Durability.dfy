/**
 End-to-end durability: one writer appends encoded records to the WAL of one document, syncs it and
 crashes in any order, while anything else happens to the rest of the storage.
 */
module Durability {
  import opened Wrappers
  import opened Utf8
  import opened WalRecord
  import opened WalFrames
  import opened WalCodec
  import opened Recovery
  import opened DurableStorage
  import opened DocumentRecovery

  datatype Move =
    | Commit(record: CommitRecord, gate: Gate)
    | Sync(gate: Gate)
    | Crashing
    | Elsewhere(gate: Gate, op: Op)

  /** The records whose frames make up the two copies of the WAL. */
  datatype Logs = Logs(written: seq<CommitRecord>, synced: seq<CommitRecord>)

  datatype System = System(store: Store, logs: Logs)

  datatype Setup = Setup(fence: Fence, codec: Codec, base: Base)

  // ---------------------------------------------------------------- the writer

  /** The id, sequence and parent the next record must have: those after the end of the log. */
  ghost predicate ContinuesLog(s: Setup, log: seq<CommitRecord>, r: CommitRecord)
  {
    r.uri == s.fence.uri &&
    r.sequence == s.base.revision.sequence + |log| + 1 &&
    r.parentRevisionId == Some(if log == [] then s.base.revision.id else log[|log| - 1].revisionId) &&
    r.revisionId != s.base.revision.id && r.transactionId != s.base.revision.transactionId &&
    forall i :: 0 <= i < |log| ==> r.revisionId != log[i].revisionId && r.transactionId != log[i].transactionId
  }

  ghost predicate WriterLog(s: Setup, log: seq<CommitRecord>)
  {
    forall i :: 0 <= i < |log| ==> ContinuesLog(s, log[..i], log[i])
  }

  predicate TouchesWal(uri: JsString, op: Op)
  {
    op.Crash? || ((op.Append? || op.Fsync? || op.TruncateDurable?) && op.fence.uri == uri)
  }

  /** A commit continues the log as it stands: after a crash, the one recovery would find. */
  ghost predicate Allowed(s: Setup, logs: Logs, m: Move)
  {
    match m
    case Commit(r, _) => ValidRecord(s.codec.syn, r) && Encoded(s.codec, r).Ok? && ContinuesLog(s, logs.written, r)
    case Elsewhere(_, op) => !TouchesWal(s.fence.uri, op)
    case _ => true
  }

  /** A record that does not encode is never appended. */
  function Moved(s: Setup, y: System, m: Move): System
  {
    match m
    case Commit(r, gate) =>
      var encoded := Encoded(s.codec, r);
      if encoded.Err? then y
      else
        System(Step(y.store, gate, Append(s.fence, encoded.value)),
               if gate == Ready then y.logs.(written := y.logs.written + [r]) else y.logs)
    case Sync(gate) =>
      System(Step(y.store, gate, Fsync(s.fence)),
             if gate == Ready then y.logs.(synced := y.logs.written) else y.logs)
    case Crashing => System(Step(y.store, Ready, Crash), y.logs.(written := y.logs.synced))
    case Elsewhere(gate, op) => System(Step(y.store, gate, op), y.logs)
  }

  const START := System(EMPTY_STORE, Logs([], []))

  ghost predicate AllowedRun(s: Setup, moves: seq<Move>)
  {
    moves == [] ||
    (AllowedRun(s, moves[..|moves| - 1]) && Allowed(s, After(s, moves[..|moves| - 1]).logs, moves[|moves| - 1]))
  }

  function After(s: Setup, moves: seq<Move>): System
  {
    if moves == [] then START else Moved(s, After(s, moves[..|moves| - 1]), moves[|moves| - 1])
  }

  // ---------------------------------------------------------------- bytes and logs agree

  /** These bytes are the frames of this log, and the writer wrote it. */
  ghost predicate Holds(s: Setup, bytes: Bytes, log: seq<CommitRecord>)
  {
    ValidRecords(s.codec, log) && Frames(s.codec, log) == Ok(bytes) && WriterLog(s, log)
  }

  ghost predicate Mirrors(s: Setup, w: Wal, logs: Logs)
  {
    Holds(s, w.volatileBytes, logs.written) && Holds(s, w.durableBytes, logs.synced) && logs.synced <= logs.written
  }

  ghost predicate Faithful(s: Setup, y: System) { Mirrors(s, WalOf(y.store, s.fence.uri), y.logs) }

  lemma HoldsOneMore(s: Setup, bytes: Bytes, log: seq<CommitRecord>, r: CommitRecord)
    requires Holds(s, bytes, log)
    requires ValidRecord(s.codec.syn, r) && Encoded(s.codec, r).Ok? && ContinuesLog(s, log, r)
    ensures Holds(s, bytes + Encoded(s.codec, r).value, log + [r])
  {
    var longer := log + [r];
    assert longer[..|longer| - 1] == log;
    forall i | 0 <= i < |longer| ensures ContinuesLog(s, longer[..i], longer[i]) {
      assert longer[..i] == if i < |log| then log[..i] else log;
    }
  }

  lemma MovedFaithful(s: Setup, y: System, m: Move)
    requires Faithful(s, y) && Allowed(s, y.logs, m)
    ensures Faithful(s, Moved(s, y, m))
  {
    var uri := s.fence.uri;
    match m
    case Commit(r, gate) =>
      AppendWal(y.store, gate, s.fence, Encoded(s.codec, r).value);
      HoldsOneMore(s, WalOf(y.store, uri).volatileBytes, y.logs.written, r);
    case Sync(gate) => FsyncWal(y.store, gate, s.fence);
    case Crashing => CrashWal(y.store, uri);
    case Elsewhere(gate, op) => ElsewhereKeepsWal(y.store, gate, op, uri);
  }

  lemma AppendWal(st: Store, gate: Gate, fence: Fence, bytes: Bytes)
    ensures var w := WalOf(st, fence.uri);
            WalOf(Step(st, gate, Append(fence, bytes)), fence.uri)
            == if gate == Ready then Wal(w.volatileBytes + bytes, w.durableBytes) else w
  {
  }

  lemma FsyncWal(st: Store, gate: Gate, fence: Fence)
    ensures var w := WalOf(st, fence.uri);
            WalOf(Step(st, gate, Fsync(fence)), fence.uri)
            == if gate == Ready then Wal(w.volatileBytes, w.volatileBytes) else w
  {
  }

  lemma CrashWal(st: Store, uri: JsString)
    ensures var w := WalOf(st, uri);
            WalOf(Step(st, Ready, Crash), uri) == Wal(w.durableBytes, w.durableBytes)
  {
  }

  lemma ElsewhereKeepsWal(st: Store, gate: Gate, op: Op, uri: JsString)
    requires !TouchesWal(uri, op)
    ensures WalOf(Step(st, gate, op), uri) == WalOf(st, uri)
  {
  }

  lemma {:induction false} RunFaithful(s: Setup, moves: seq<Move>)
    requires AllowedRun(s, moves)
    ensures Faithful(s, After(s, moves))
  {
    if moves != [] {
      RunFaithful(s, moves[..|moves| - 1]);
      MovedFaithful(s, After(s, moves[..|moves| - 1]), moves[|moves| - 1]);
    }
  }

  /** A record that was synced stays: the synced log only ever grows. */
  lemma {:induction false} SyncedRecordsStay(s: Setup, moves: seq<Move>, n: nat)
    requires AllowedRun(s, moves) && n <= |moves|
    ensures AllowedRun(s, moves[..n])
    ensures After(s, moves[..n]).logs.synced <= After(s, moves).logs.synced
  {
    if n == |moves| {
      assert moves[..n] == moves;
    } else {
      var front := moves[..|moves| - 1];
      SyncedRecordsStay(s, front, n);
      assert front[..n] == moves[..n];
      RunFaithful(s, front);
      SyncedLogGrows(s, After(s, front), moves[|moves| - 1]);
    }
  }

  lemma SyncedLogGrows(s: Setup, y: System, m: Move)
    requires y.logs.synced <= y.logs.written
    ensures y.logs.synced <= Moved(s, y, m).logs.synced
  {
  }

  // ---------------------------------------------------------------- the log as a history

  lemma WriterLogIsLinear(s: Setup, log: seq<CommitRecord>)
    requires WriterLog(s, log)
    ensures LinearHistory(s.fence.uri, s.base, Canonicals(log)) && NoGap(s.base, Canonicals(log))
  {
    var cs := Canonicals(log);
    forall i | 0 <= i < |log|
      ensures cs[i].uri == s.fence.uri && cs[i].sequence == s.base.revision.sequence + i + 1
      ensures cs[i].revisionId != s.base.revision.id && cs[i].transactionId != s.base.revision.transactionId
      ensures cs[i].parentRevisionId == Some(if i == 0 then s.base.revision.id else cs[i - 1].revisionId)
    {
      assert ContinuesLog(s, log[..i], log[i]);
    }
    forall i, j | 0 <= i < j < |log|
      ensures cs[i].revisionId != cs[j].revisionId && cs[i].transactionId != cs[j].transactionId
    {
      assert ContinuesLog(s, log[..j], log[j]) && log[..j][i] == log[i];
    }
    forall i | 0 < i < |cs| ensures Succeeds(cs[i - 1], cs[i]) {}
  }

  /** Replaying a log with callbacks that accept everything. */
  ghost function Folded(cb: Callbacks, base: Base, rs: seq<CommitRecord>): Base
    requires Accepting(cb)
  {
    if rs == [] then base
    else
      var before := Folded(cb, base, rs[..|rs| - 1]);
      cb.replay(before.snapshot, before.revision, rs[|rs| - 1]).value
  }

  lemma {:induction false} ReplayIsFold(cb: Callbacks, s: Setup, log: seq<CommitRecord>)
    requires Accepting(cb) && WriterLog(s, log)
    ensures Replay(cb, s.fence.uri, Success(s.base, 0), Canonicals(log))
         == Ok(Success(Folded(cb, s.base, Canonicals(log)), |log|))
    ensures Folded(cb, s.base, Canonicals(log)).revision.sequence == s.base.revision.sequence + |log|
    ensures Folded(cb, s.base, Canonicals(log)).revision.id
         == if log == [] then s.base.revision.id else log[|log| - 1].revisionId
  {
    hide WriterLog, ContinuesLog;
    if log == [] {
    } else {
      hide Replay, Folded;
      var front := log[..|log| - 1];
      WriterLogPrefix(s, log, |front|);
      ReplayIsFold(cb, s, front);
      LastContinues(s, log, Folded(cb, s.base, Canonicals(front)).revision);
      LastFolded(cb, s.fence.uri, s.base, log);
    }
  }

  lemma LastContinues(s: Setup, log: seq<CommitRecord>, v: Revision)
    requires WriterLog(s, log) && log != [] && v.sequence == s.base.revision.sequence + |log| - 1
    requires v.id == if |log| == 1 then s.base.revision.id else log[|log| - 2].revisionId
    ensures Continues(s.fence.uri, v, log[|log| - 1])
  {
    assert ContinuesLog(s, log[..|log| - 1], log[|log| - 1]);
  }

  /** Replay of a log is the fold if that of its front is, and the last record continues it. */
  lemma LastFolded(cb: Callbacks, uri: JsString, base: Base, log: seq<CommitRecord>)
    requires Accepting(cb) && log != []
    requires var before := Folded(cb, base, Canonicals(log[..|log| - 1]));
             Replay(cb, uri, Success(base, 0), Canonicals(log[..|log| - 1])) == Ok(Success(before, |log| - 1)) &&
             Continues(uri, before.revision, log[|log| - 1])
    ensures Replay(cb, uri, Success(base, 0), Canonicals(log)) == Ok(Success(Folded(cb, base, Canonicals(log)), |log|))
    ensures Folded(cb, base, Canonicals(log)).revision.sequence == log[|log| - 1].sequence
    ensures Folded(cb, base, Canonicals(log)).revision.id == log[|log| - 1].revisionId
  {
    hide Replay;
    var n := |log| - 1;
    var front, last := Canonicals(log[..n]), Canonical(log[n]);
    CanonicalsLast(log);
    assert Canonicals(log) == front + [last] && Canonicals(log)[..n] == front;
    ReplayConcat(cb, uri, Success(base, 0), front, [last]);
    OneReplayed(cb, uri, Folded(cb, base, front), n, last);
  }

  lemma OneReplayed(cb: Callbacks, uri: JsString, at: Base, n: nat, r: CommitRecord)
    requires Accepting(cb) && Continues(uri, at.revision, r)
    ensures Replay(cb, uri, Success(at, n), [r])
         == Ok(Success(cb.replay(at.snapshot, at.revision, r).value, n + 1))
    ensures Matches(r, cb.replay(at.snapshot, at.revision, r).value.revision)
  {
    assert [r][1..] == [];
  }

  // ---------------------------------------------------------------- the theorems

  /** Recovery of this document with this codec, without injected faults. */
  ghost predicate Undisturbed(s: Setup, o: Options)
  {
    o.uri == s.fence.uri && o.fence.uri == s.fence.uri && o.codec == s.codec && SoundCodec(o.codec) &&
    Accepting(o.callbacks) && o.readGate == Ready && o.truncateGate == Ready
  }

  lemma DecodesHeld(s: Setup, bytes: Bytes, log: seq<CommitRecord>)
    requires SoundCodec(s.codec) && Holds(s, bytes, log)
    ensures DecodedWal(s.codec, bytes) == Complete(Canonicals(log), |bytes|, false)
  {
    WalRoundTrip(s.codec, log);
  }

  /** Recovering from bytes that decode to a log succeeds with the replay of that log. */
  lemma RecoversDecoded(s: Setup, o: Options, st: Store, log: seq<CommitRecord>)
    requires Undisturbed(s, o) && RecoveryBase(o) == Ok(s.base) && WriterLog(s, log)
    requires DecodedWal(o.codec, WalOf(st, o.uri).durableBytes)
          == Complete(Canonicals(log), |WalOf(st, o.uri).durableBytes|, false)
    ensures Recovering(o, st)
         == Outcome(WithWal(st, o.uri, WalOf(st, o.uri)),
                    Ok(Recovered(Folded(o.callbacks, s.base, Canonicals(log)), |log|, false, 0)))
  {
    ReplayIsFold(o.callbacks, s, log);
    WriterLogIsLinear(s, log);
  }

  /** After any run, recovery returns exactly the replay of the synced log: every record appended
      before the last successful sync that no crash had already lost, and no other. */
  lemma SyncedLogIsRecovered(s: Setup, moves: seq<Move>, o: Options)
    requires AllowedRun(s, moves) && Undisturbed(s, o) && RecoveryBase(o) == Ok(s.base)
    ensures var log := After(s, moves).logs.synced;
            Recovering(o, After(s, moves).store).reply
            == Ok(Recovered(Folded(o.callbacks, s.base, Canonicals(log)), |log|, false, 0))
  {
    RunFaithful(s, moves);
    RecoversSynced(s, After(s, moves), o);
  }

  lemma RecoversSynced(s: Setup, y: System, o: Options)
    requires Faithful(s, y) && Undisturbed(s, o) && RecoveryBase(o) == Ok(s.base)
    ensures Recovering(o, y.store).reply
         == Ok(Recovered(Folded(o.callbacks, s.base, Canonicals(y.logs.synced)), |y.logs.synced|, false, 0))
  {
    DecodesHeld(s, WalOf(y.store, o.uri).durableBytes, y.logs.synced);
    RecoversDecoded(s, o, y.store, y.logs.synced);
  }

  /** A crash after the run changes nothing recovery can see, and leaves nothing else to see. */
  lemma CrashLosesOnlyUnsynced(s: Setup, moves: seq<Move>, o: Options)
    requires AllowedRun(s, moves) && Undisturbed(s, o) && RecoveryBase(o) == Ok(s.base)
    ensures AllowedRun(s, moves + [Crashing])
    ensures var y := After(s, moves);
            var crashed := After(s, moves + [Crashing]);
            crashed.logs == Logs(y.logs.synced, y.logs.synced) &&
            Recovering(o, crashed.store).reply == Recovering(o, y.store).reply
  {
    var longer := moves + [Crashing];
    assert longer[..|longer| - 1] == moves && longer[|moves|] == Crashing;
    SyncedLogIsRecovered(s, moves, o);
    SyncedLogIsRecovered(s, longer, o);
  }

  /** The writer may go on from the recovered head: it names the parent and the sequence the next
      record after a crash must have. */
  lemma RecoveredHeadContinues(s: Setup, moves: seq<Move>, o: Options, r: CommitRecord)
    requires AllowedRun(s, moves) && Undisturbed(s, o) && RecoveryBase(o) == Ok(s.base)
    requires var y := After(s, moves); y.logs.written == y.logs.synced
    requires ContinuesLog(s, After(s, moves).logs.written, r)
    ensures Recovering(o, After(s, moves).store).reply.Ok?
    ensures Continues(o.uri, Recovering(o, After(s, moves).store).reply.value.head.revision, r)
  {
    SyncedLogIsRecovered(s, moves, o);
    RunFaithful(s, moves);
    ReplayIsFold(o.callbacks, s, After(s, moves).logs.synced);
  }

  /** The same snapshot and revision identity. */
  ghost predicate UpToTag(a: Base, b: Base) { exists d :: a == Tagged(b, d) }

  /** A snapshot taken after any synced prefix is a recovery base with the same outcome. */
  lemma CheckpointRecovers(s: Setup, moves: seq<Move>, o: Options, n: nat)
    requires AllowedRun(s, moves) && Undisturbed(s, o) && IgnoresDurability(o.callbacks)
    requires n <= |After(s, moves).logs.synced|
    requires var front := After(s, moves).logs.synced[..n];
             RecoveryBase(o) == Ok(Tagged(Folded(o.callbacks, s.base, Canonicals(front)), SnapshotLevel))
    ensures Recovering(o, After(s, moves).store).reply.Ok?
    ensures UpToTag(Recovering(o, After(s, moves).store).reply.value.head,
                    Folded(o.callbacks, s.base, Canonicals(After(s, moves).logs.synced)))
  {
    RunFaithful(s, moves);
    RecoversFromCheckpoint(s, After(s, moves), o, n);
  }

  lemma RecoversFromCheckpoint(s: Setup, y: System, o: Options, n: nat)
    requires Faithful(s, y) && Undisturbed(s, o) && IgnoresDurability(o.callbacks) && n <= |y.logs.synced|
    requires RecoveryBase(o) == Ok(Tagged(Folded(o.callbacks, s.base, Canonicals(y.logs.synced[..n])), SnapshotLevel))
    ensures Recovering(o, y.store).reply.Ok?
    ensures UpToTag(Recovering(o, y.store).reply.value.head, Folded(o.callbacks, s.base, Canonicals(y.logs.synced)))
  {
    var log := y.logs.synced;
    DecodesHeld(s, WalOf(y.store, o.uri).durableBytes, log);
    ReplaysFromCheckpoint(s, o.callbacks, log, n);
    RecoversReplay(o, y.store, RecoveryBase(o).value, Canonicals(log));
  }

  lemma ReplaysFromCheckpoint(s: Setup, cb: Callbacks, log: seq<CommitRecord>, n: nat)
    requires Accepting(cb) && IgnoresDurability(cb) && WriterLog(s, log) && n <= |log|
    ensures var checkpoint := Tagged(Folded(cb, s.base, Canonicals(log[..n])), SnapshotLevel);
            var again := ReplayAll(cb, s.fence.uri, checkpoint, Canonicals(log));
            again.Ok? && UpToTag(again.value.head, Folded(cb, s.base, Canonicals(log)))
  {
    ReplayIsFold(cb, s, log);
    WriterLogIsLinear(s, log);
    WriterLogPrefix(s, log, n);
    ReplayIsFold(cb, s, log[..n]);
    assert Canonicals(log)[..n] == Canonicals(log[..n]);
    CheckpointIsTransparent(cb, s.fence.uri, s.base, Canonicals(log), n, SnapshotLevel);
  }

  lemma WriterLogPrefix(s: Setup, log: seq<CommitRecord>, n: nat)
    requires WriterLog(s, log) && n <= |log|
    ensures WriterLog(s, log[..n])
  {
    forall i | 0 <= i < n ensures ContinuesLog(s, log[..n][..i], log[..n][i]) {
      assert log[..n][..i] == log[..i];
    }
  }

  lemma RecoversReplay(o: Options, st: Store, base: Base, records: seq<CommitRecord>)
    requires o.readGate == Ready && RecoveryBase(o) == Ok(base) && o.callbacks.validateSnapshot(base.snapshot)
    requires DecodedWal(o.codec, WalOf(st, o.uri).durableBytes)
          == Complete(records, |WalOf(st, o.uri).durableBytes|, false)
    requires ReplayAll(o.callbacks, o.uri, base, records).Ok?
    ensures Recovering(o, st).reply.Ok?
    ensures Recovering(o, st).reply.value.head == ReplayAll(o.callbacks, o.uri, base, records).value.head
  {
  }

  /** A frame torn at the end of the durable WAL is cut off there and then, for good. */
  lemma TornTailIsCutOff(s: Setup, o: Options, st: Store, log: seq<CommitRecord>, r: CommitRecord, torn: Bytes)
    requires Undisturbed(s, o) && RecoveryBase(o) == Ok(s.base) && s.codec.maxPayload < 0x2020_2020
    requires WriterLog(s, log) && ValidRecords(s.codec, log + [r]) && Frames(s.codec, log).Ok? &&
             Encoded(s.codec, r).Ok?
    requires 0 < |torn| < |Encoded(s.codec, r).value| && torn <= Encoded(s.codec, r).value && |torn| < 4112
    requires WalOf(st, o.uri).durableBytes == Frames(s.codec, log).value + torn
    ensures var kept := Frames(s.codec, log).value;
            Recovering(o, st)
            == Outcome(WithWal(st, o.uri, Wal(kept, kept)),
                       Ok(Recovered(Folded(o.callbacks, s.base, Canonicals(log)), |log|, true, |torn|)))
  {
    WalTornTail(s.codec, log, r, torn);
    ReplayIsFold(o.callbacks, s, log);
    WriterLogIsLinear(s, log);
    CutsOff(o, st, s.base, Frames(s.codec, log).value, torn, Canonicals(log));
  }

  lemma CutsOff(o: Options, st: Store, base: Base, kept: Bytes, torn: Bytes, records: seq<CommitRecord>)
    requires o.readGate == Ready == o.truncateGate && o.fence.uri == o.uri && torn != []
    requires RecoveryBase(o) == Ok(base) && o.callbacks.validateSnapshot(base.snapshot)
    requires WalOf(st, o.uri).durableBytes == kept + torn
    requires DecodedWal(o.codec, kept + torn) == Complete(records, |kept|, true)
    requires ReplayAll(o.callbacks, o.uri, base, records).Ok?
    ensures var s := ReplayAll(o.callbacks, o.uri, base, records).value;
            Recovering(o, st) == Outcome(WithWal(st, o.uri, Wal(kept, kept)),
                                         Ok(Recovered(s.head, s.appliedRecordCount, true, |torn|)))
  {
    CutsOffDecoded(o, st, base, kept, torn, records);
  }

  lemma CutsOffDecoded(o: Options, st: Store, base: Base, kept: Bytes, torn: Bytes, records: seq<CommitRecord>)
    requires o.readGate == Ready == o.truncateGate && o.fence.uri == o.uri && torn != []
    requires WalOf(st, o.uri).durableBytes == kept + torn
    requires ReplayAll(o.callbacks, o.uri, base, records).Ok?
    ensures var s := ReplayAll(o.callbacks, o.uri, base, records).value;
            AfterDecode(o, DurableRead(st, Ready, o.uri).store, base, |kept + torn|, Complete(records, |kept|, true))
            == Outcome(WithWal(st, o.uri, Wal(kept, kept)), Ok(Recovered(s.head, s.appliedRecordCount, true, |torn|)))
  {
    assert (kept + torn)[..|kept|] == kept;
    var w := WalOf(st, o.uri);
    assert WithWal(WithWal(st, o.uri, w), o.uri, Wal(kept, kept)) == WithWal(st, o.uri, Wal(kept, kept));
  }

  lemma SyncedFrame(st: Store, fence: Fence, bytes: Bytes)
    ensures var w := WalOf(st, fence.uri);
            var longer := w.volatileBytes + bytes;
            WalOf(Step(Step(st, Ready, Append(fence, bytes)), Ready, Fsync(fence)), fence.uri) == Wal(longer, longer)
  {
    AppendWal(st, Ready, fence, bytes);
    FsyncWal(Step(st, Ready, Append(fence, bytes)), Ready, fence);
  }

  /** After a recovery the writer goes on from what it returned: one more frame, synced. */
  function GoneOn(o: Options, st: Store, frame: Bytes): Store
  {
    Step(Step(Recovering(o, st).store, Ready, Append(o.fence, frame)), Ready, Fsync(o.fence))
  }

  /** A synced record is lost: two recoveries read the same torn tail; the second cuts it off, and
      the writer appends and syncs a frame of just as many bytes.  To the first recovery the length
      is unchanged, so its truncation succeeds and removes that frame. */
  lemma StaleTruncationLosesRecord(s: Setup, o: Options, st: Store, log: seq<CommitRecord>, r: CommitRecord,
                                   other: CommitRecord, torn: Bytes)
    requires Undisturbed(s, o) && RecoveryBase(o) == Ok(s.base) && s.codec.maxPayload < 0x2020_2020
    requires WriterLog(s, log) && ValidRecords(s.codec, log) && Frames(s.codec, log).Ok?
    requires ValidRecord(s.codec.syn, r) && Encoded(s.codec, r).Ok?
    requires ValidRecord(s.codec.syn, other) && Encoded(s.codec, other).Ok? && torn < Encoded(s.codec, other).value
    requires |torn| == |Encoded(s.codec, r).value| < 4112
    requires WalOf(st, o.uri).durableBytes == Frames(s.codec, log).value + torn
    ensures var cut := |Frames(s.codec, log).value|;
            var synced := GoneOn(o, st, Encoded(s.codec, r).value);
            var late := TailTruncated(o, synced, cut + |torn|, cut, true);
            DocumentRecovery.Decoded(o, st) == Complete(Canonicals(log), cut, true) &&
            DocumentRecovery.Decoded(o, synced) == Complete(Canonicals(log + [r]), cut + |torn|, false) &&
            late.reply == Ok(()) && DocumentRecovery.Decoded(o, late.store) == Complete(Canonicals(log), cut, false)
  {
    hide Recovering, Encoded, DecodedWal, Frames, TailTruncated, WriterLog, ValidRecord;
    var kept, frame := Frames(s.codec, log).value, Encoded(s.codec, r).value;
    FramesOneMore(s.codec, log, other);
    FrameNotEmpty(s.codec, r);
    WalTornTail(s.codec, log, other, torn);
    TornTailIsCutOff(s, o, st, log, other, torn);
    SyncedFrame(Recovering(o, st).store, o.fence, frame);
    var synced := GoneOn(o, st, frame);
    FramesOneMore(s.codec, log, r);
    WalRoundTrip(s.codec, log + [r]);
    WalRoundTrip(s.codec, log);
    CutsAtLength(o, synced, |kept + frame|, |kept|);
    assert (kept + frame)[..|kept|] == kept;
  }

  lemma CutsAtLength(o: Options, st: Store, length: nat, cut: nat)
    requires o.truncateGate == Ready && |WalOf(st, o.fence.uri).durableBytes| == length && cut < length
    ensures var t := TailTruncated(o, st, length, cut, true);
            t.reply == Ok(()) && WalOf(t.store, o.fence.uri).durableBytes == WalOf(st, o.fence.uri).durableBytes[..cut]
  {
  }

  lemma FrameNotEmpty(c: Codec, r: CommitRecord)
    requires Encoded(c, r).Ok?
    ensures Encoded(c, r).value != []
  {
  }

  lemma FramesOneMore(c: Codec, log: seq<CommitRecord>, r: CommitRecord)
    requires ValidRecords(c, log) && ValidRecord(c.syn, r) && Frames(c, log).Ok? && Encoded(c, r).Ok?
    ensures ValidRecords(c, log + [r]) && Frames(c, log + [r]) == Ok(Frames(c, log).value + Encoded(c, r).value)
  {
    assert (log + [r])[..|log|] == log;
  }

  /** A changed byte in the checksum or payload of a durable frame stops recovery at that frame. */
  lemma DamageStopsRecovery(s: Setup, o: Options, st: Store, log: seq<CommitRecord>, r: CommitRecord, rest: Bytes,
                            j: nat, x: Byte)
    requires Undisturbed(s, o) && RecoveryBase(o) == Ok(s.base)
    requires ValidRecords(s.codec, log) && Frames(s.codec, log).Ok? && Encoded(s.codec, r).Ok?
    requires 4 <= j < |Encoded(s.codec, r).value| && Encoded(s.codec, r).value[j] != x
    requires WalOf(st, o.uri).durableBytes == Frames(s.codec, log).value + Encoded(s.codec, r).value[j := x] + rest
    ensures Recovering(o, st).reply == Err(WalCorrupt(|Frames(s.codec, log).value|))
  {
    WalDamageLocated(s.codec, log, r, rest, j, x);
  }
}
