/**
 A snapshot of records that are not synced yet: after a crash the recovered head is ahead of the log,
 and going on from it leaves a gap in the log that the next recovery refuses.
 */
module SnapshotAhead {
  import opened Wrappers
  import opened WalRecord
  import opened WalCodec
  import opened Recovery
  import opened DurableStorage
  import opened DocumentRecovery
  import opened SnapshotStore
  import opened ManifestLinearity
  import opened SnapshotReads
  import opened CommitOutcome
  import opened CheckpointedRecovery

  function Max(k: nat, n: nat): nat { if k < n then n else k }

  /** The recovery base made from the snapshot of the state after `n` records. */
  ghost function BaseAt(g: Setting, log: seq<CommitRecord>, n: nat): Base
    requires Accepting(g.callbacks) && n <= |log|
  {
    Tagged(StateAt(g, log, n), SnapshotLevel)
  }

  // ---------------------------------------------------------------- replay

  lemma StateMatchesLast(g: Setting, log: seq<CommitRecord>, n: nat)
    requires Accepting(g.callbacks) && 0 < n <= |log|
    ensures Matches(log[n - 1], StateAt(g, log, n).revision)
  {
    CanonicalsLast(log[..n]);
    var cs := Canonicals(log[..n]);
    assert log[..n][n - 1] == log[n - 1] && cs[n - 1] == Canonical(log[n - 1]);
  }

  /** Sequences and distinct ids along a log of the writer. */
  lemma WriterRecords(g: Setting, log: seq<CommitRecord>, i: nat, j: nat)
    requires D.WriterLog(g.writer, log) && i < j < |log|
    ensures log[i].sequence == g.writer.base.revision.sequence + i + 1
    ensures log[j].sequence == g.writer.base.revision.sequence + j + 1
    ensures log[i].revisionId != log[j].revisionId && log[i].transactionId != log[j].transactionId
    ensures log[j].parentRevisionId == Some(log[j - 1].revisionId)
  {
    assert D.ContinuesLog(g.writer, log[..i], log[i]) && D.ContinuesLog(g.writer, log[..j], log[j]);
    assert log[..j][i] == log[i] && log[..j][j - 1] == log[j - 1];
  }

  /** Over a snapshot ahead of the log there is nothing to replay. */
  lemma NothingToReplay(g: Setting, log: seq<CommitRecord>, k: nat, n: nat)
    requires Accepting(g.callbacks) && D.WriterLog(g.writer, log) && k < n <= |log|
    ensures ReplayAll(g.callbacks, g.writer.fence.uri, BaseAt(g, log, n), Canonicals(log[..k]))
         == Ok(Success(BaseAt(g, log, n), 0))
  {
    hide D.WriterLog, D.ContinuesLog, Replay, StateAt;
    var base, rs := BaseAt(g, log, n), Canonicals(log[..k]);
    StateMatchesLast(g, log, n);
    D.WriterLogPrefix(g.writer, log, k);
    D.WriterLogIsLinear(g.writer, log[..k]);
    forall i | 0 <= i < k
      ensures rs[i].sequence < base.revision.sequence && rs[i].revisionId != base.revision.id
      ensures rs[i].transactionId != base.revision.transactionId
      ensures rs[i].sequence + 1 == base.revision.sequence ==> base.revision.parentRevisionId == Some(rs[i].revisionId)
    {
      WriterRecords(g, log, i, n - 1);
    }
    ReplaySkips(g.callbacks, g.writer.fence.uri, Success(base, 0), rs);
  }

  /** One more record after the recovered head: replay of the log accepts it exactly when the snapshot
      was not ahead of the log, or the log held nothing at all. */
  lemma NextReplayIff(g: Setting, log: seq<CommitRecord>, k: nat, n: nat, r: CommitRecord)
    requires Accepting(g.callbacks) && IgnoresDurability(g.callbacks) && D.WriterLog(g.writer, log)
    requires k <= |log| && n <= |log| && D.ContinuesLog(g.writer, log[..Max(k, n)], r)
    ensures ReplayAll(g.callbacks, g.writer.fence.uri, BaseAt(g, log, n), Canonicals(log[..k] + [r])).Ok?
       <==> n <= k || k == 0
  {
    if n <= k {
      InStep(g, log, k, n, r);
    } else if k == 0 {
      FirstRecord(g, log, n, r);
    } else {
      Gap(g, log, k, n, r);
    }
  }

  lemma InStep(g: Setting, log: seq<CommitRecord>, k: nat, n: nat, r: CommitRecord)
    requires Accepting(g.callbacks) && IgnoresDurability(g.callbacks) && D.WriterLog(g.writer, log)
    requires n <= k <= |log| && D.ContinuesLog(g.writer, log[..k], r)
    ensures ReplayAll(g.callbacks, g.writer.fence.uri, BaseAt(g, log, n), Canonicals(log[..k] + [r])).Ok?
  {
    hide D.ContinuesLog, D.Folded, ReplayAll;
    var longer := log[..k] + [r];
    forall i | 0 <= i < |longer| ensures D.ContinuesLog(g.writer, longer[..i], longer[i]) {
      assert longer[..i] == log[..i];
    }
    assert longer[..n] == log[..n];
    D.ReplaysFromCheckpoint(g.writer, g.callbacks, longer, n);
  }

  lemma FirstRecord(g: Setting, log: seq<CommitRecord>, n: nat, r: CommitRecord)
    requires Accepting(g.callbacks) && D.WriterLog(g.writer, log)
    requires 0 < n <= |log| && D.ContinuesLog(g.writer, log[..n], r)
    ensures ReplayAll(g.callbacks, g.writer.fence.uri, BaseAt(g, log, n), Canonicals(log[..0] + [r])).Ok?
  {
    var base, rs := BaseAt(g, log, n), Canonicals(log[..0] + [r]);
    assert log[..0] + [r] == [r] && rs == [Canonical(r)];
    StateMatchesLast(g, log, n);
    assert log[..n][n - 1] == log[n - 1] && D.ContinuesLog(g.writer, log[..n - 1], log[n - 1]);
    assert LinearHistory(g.writer.fence.uri, base, rs) && NoGap(base, rs);
    RecoverySucceedsIff(g.callbacks, g.writer.fence.uri, base, rs);
  }

  lemma Gap(g: Setting, log: seq<CommitRecord>, k: nat, n: nat, r: CommitRecord)
    requires Accepting(g.callbacks) && D.WriterLog(g.writer, log)
    requires 0 < k < n <= |log| && D.ContinuesLog(g.writer, log[..n], r)
    ensures ReplayAll(g.callbacks, g.writer.fence.uri, BaseAt(g, log, n), Canonicals(log[..k] + [r]))
         == Err(HistoryDiscontinuous)
  {
    var rs := Canonicals(log[..k] + [r]);
    assert rs[k - 1] == Canonical(log[k - 1]) && rs[k] == Canonical(r);
    assert D.ContinuesLog(g.writer, log[..k - 1], log[k - 1]);
    assert !Succeeds(rs[k - 1], rs[k]);
  }

  // ---------------------------------------------------------------- the run

  /** The store after this commit has run alone and without faults. */
  function Committed(x: Env, st: Store, i: Input): Store { Alone(x, i, Progress(st, Begun(x, i)), ALL_READY).store }

  /** Such a commit puts its manifest and its snapshot in place and leaves the log alone. */
  lemma CommitSucceeds(x: Env, st: Store, i: Input)
    requires KeepsIdentity(x) && ValidInput(x, i) && x.encode(i.snapshot).Some? && MayCommit(x, st, i.revision)
    ensures var after := Committed(x, st, i);
            var key := StorageKey(i.fence.uri, SnapKey(i.revision.id));
            var generation := GenerationOf(st, i.fence.uri) + 1;
            after.wal == st.wal && Current(after, i.fence.uri) == Some(Manifest(DraftOf(i.revision), generation)) &&
            Normal(x, Manifest(DraftOf(i.revision), generation), i.fence.uri) &&
            key in after.snapshots && after.snapshots[key] == x.encode(i.snapshot).value
  {
    hide Advance, Normal;
    AloneSix(x, i, Progress(st, Begun(x, i)), ALL_READY);
    SnapshotInPlace(x, st, i);
    FirstFourSpareWal(x, st, i);
    ManifestInPlace(x, i, AfterFour(x, st, i));
  }

  /** The last two awaits of the commit switch to its manifest and change nothing else. */
  lemma ManifestInPlace(x: Env, i: Input, p: Progress)
    requires ValidInput(x, i) && p.pc == ReadingManifest && MayCommit(x, p.store, i.revision)
    requires StorageKey(i.fence.uri, SnapKey(i.revision.id)) in p.store.snapshots
    ensures var after := Advance(x, i, Advance(x, i, p, Ready), Ready).store;
            var next := Manifest(DraftOf(i.revision), GenerationOf(p.store, i.fence.uri) + 1);
            after == p.store.(manifests := after.manifests) && Current(after, i.fence.uri) == Some(next) &&
            Normal(x, next, i.fence.uri)
  {
  }

  lemma FirstFourSpareWal(x: Env, st: Store, i: Input)
    ensures AfterFour(x, st, i).store.wal == st.wal
  {
    hide Advance;
    var p := Progress(st, Begun(x, i));
    AdvanceSparesWal(x, i, p);
    AdvanceSparesWal(x, i, Advance(x, i, p, Ready));
    AdvanceSparesWal(x, i, Advance(x, i, Advance(x, i, p, Ready), Ready));
    AdvanceSparesWal(x, i, Advance(x, i, Advance(x, i, Advance(x, i, p, Ready), Ready), Ready));
  }

  lemma AdvanceSparesWal(x: Env, i: Input, p: Progress)
    ensures Advance(x, i, p, Ready).store.wal == p.store.wal
  {
    hide Normal, TemporaryChecked, ManifestChecked;
  }

  /** Whatever happens to the log afterwards, `readLatest` finds this commit. */
  lemma FindsCommit(x: Env, st: Store, i: Input, later: Store)
    requires (forall s :: x.encode(s).Some? ==> x.decode(x.encode(s).value) == Some(s))
    requires ValidInput(x, i) && x.encode(i.snapshot).Some? && MayCommit(x, st, i.revision)
    requires later.manifests == Committed(x, st, i).manifests && later.snapshots == Committed(x, st, i).snapshots
    ensures LatestRead(x, later, i.fence.uri, Current(later, i.fence.uri), Ready)
         == Ok(Some(Base(RevisionOf(DraftOf(i.revision)), i.snapshot)))
  {
    hide Alone;
    CommitSucceeds(x, st, i);
  }

  /** Recovery of a log without a torn tail changes no byte, and succeeds exactly when replay does. */
  lemma RecoversIff(o: Options, st: Store, base: Base, records: seq<CommitRecord>)
    requires o.readGate == Ready && RecoveryBase(o) == Ok(base) && o.callbacks.validateSnapshot(base.snapshot)
    requires DecodedWal(o.codec, WalOf(st, o.uri).durableBytes)
          == WalFrames.Complete(records, |WalOf(st, o.uri).durableBytes|, false)
    ensures Recovering(o, st).store == WithWal(st, o.uri, WalOf(st, o.uri))
    ensures var replayed := ReplayAll(o.callbacks, o.uri, base, records);
            (Recovering(o, st).reply.Ok? <==> replayed.Ok?) &&
            (replayed.Ok? ==> Recovering(o, st).reply.value.head == replayed.value.head)
  {
  }

  /** After a crash the bytes of the log are those of the synced records. */
  lemma CrashedLog(s: D.Setup, y: D.System, committed: Store)
    requires D.Faithful(s, y) && committed.wal == y.store.wal
    ensures D.Faithful(s, D.System(Crashed(committed), D.Logs(y.logs.synced, y.logs.synced)))
  {
    assert WalOf(committed, s.fence.uri) == WalOf(y.store, s.fence.uri);
    D.CrashWal(committed, s.fence.uri);
  }

  /** What the recovered head is: the state after the synced records or after those of the snapshot,
      whichever are more. */
  lemma HeadIsLater(g: Setting, log: seq<CommitRecord>, k: nat, n: nat)
    requires Accepting(g.callbacks) && IgnoresDurability(g.callbacks) && D.WriterLog(g.writer, log)
    requires k <= |log| && n <= |log|
    ensures var replayed := ReplayAll(g.callbacks, g.writer.fence.uri, BaseAt(g, log, n), Canonicals(log[..k]));
            replayed.Ok? && D.UpToTag(replayed.value.head, StateAt(g, log, Max(k, n)))
  {
    if n <= k {
      D.WriterLogPrefix(g.writer, log, k);
      assert log[..k][..n] == log[..n];
      D.ReplaysFromCheckpoint(g.writer, g.callbacks, log[..k], n);
    } else {
      NothingToReplay(g, log, k, n);
    }
  }

  /** The next record continues a head that is the state before it, whatever its tag. */
  lemma NextContinues(g: Setting, log: seq<CommitRecord>, m: nat, head: Base, r: CommitRecord)
    requires Accepting(g.callbacks) && D.WriterLog(g.writer, log) && m <= |log|
    requires D.UpToTag(head, StateAt(g, log, m)) && D.ContinuesLog(g.writer, log[..m], r)
    ensures Recovery.Continues(g.writer.fence.uri, head.revision, r)
  {
    D.WriterLogPrefix(g.writer, log, m);
    D.ReplayIsFold(g.callbacks, g.writer, log[..m]);
  }

  /** `readLatest` finds the snapshot, before and after the writer has gone on. */
  lemma LatestIsState(g: Setting, y: D.System, i: Input, n: nat)
    requires Sound(g) && ValidInput(g.x, i) && g.x.encode(i.snapshot).Some?
    requires IsStateAt(g, y.logs.written, n, i) && MayCommit(g.x, y.store, i.revision)
    ensures forall later: Store | SameSnapshots(later, Committed(g.x, y.store, i)) ::
      LatestRead(g.x, later, i.revision.uri, Current(later, i.revision.uri), Ready)
        == Ok(Some(BaseAt(g, y.logs.written, n)))
  {
    hide Committed, LatestRead, StateAt;
    forall later: Store | SameSnapshots(later, Committed(g.x, y.store, i))
      ensures LatestRead(g.x, later, i.revision.uri, Current(later, i.revision.uri), Ready)
           == Ok(Some(BaseAt(g, y.logs.written, n)))
    {
      FindsCommit(g.x, y.store, i, later);
    }
  }

  predicate SameSnapshots(st: Store, st': Store) { st.manifests == st'.manifests && st.snapshots == st'.snapshots }

  lemma LogAfterCrash(g: Setting, y: D.System, i: Input)
    requires Sound(g) && D.Faithful(g.writer, y) && ValidInput(g.x, i) && g.x.encode(i.snapshot).Some?
    requires MayCommit(g.x, y.store, i.revision)
    ensures var crashed := Crashed(Committed(g.x, y.store, i));
            SameSnapshots(crashed, Committed(g.x, y.store, i)) && y.logs.synced <= y.logs.written &&
            D.WriterLog(g.writer, y.logs.written) &&
            D.Faithful(g.writer, D.System(crashed, D.Logs(y.logs.synced, y.logs.synced)))
  {
    hide Alone;
    CommitSucceeds(g.x, y.store, i);
    CrashedLog(g.writer, y, Committed(g.x, y.store, i));
  }

  /** Going on adds the frame of the record to the synced log, and changes nothing else. */
  lemma OneMoreRecord(g: Setting, o: Options, st: Store, log: seq<CommitRecord>, r: CommitRecord)
    requires D.Undisturbed(g.writer, o) && D.Faithful(g.writer, D.System(st, D.Logs(log, log)))
    requires ValidRecord(g.writer.codec.syn, r) && Encoded(g.writer.codec, r).Ok?
    requires Recovering(o, st).store == WithWal(st, o.uri, WalOf(st, o.uri))
    ensures var later := D.GoneOn(o, st, Encoded(g.writer.codec, r).value);
            SameSnapshots(later, st) &&
            DecodedWal(o.codec, WalOf(later, o.uri).durableBytes)
            == WalFrames.Complete(Canonicals(log + [r]), |WalOf(later, o.uri).durableBytes|, false)
  {
    hide Recovering, Encoded, DecodedWal, Frames;
    D.SyncedFrame(Recovering(o, st).store, o.fence, Encoded(g.writer.codec, r).value);
    D.FramesOneMore(g.writer.codec, log, r);
    WalRoundTrip(g.writer.codec, log + [r]);
  }

  function CrashedAfter(g: Setting, y: D.System, i: Input): Store { Crashed(Committed(g.x, y.store, i)) }

  /** A commit that storage accepts, of the state after the first `n` written records. */
  ghost predicate TakesStateAt(g: Setting, y: D.System, i: Input, n: nat)
    requires Accepting(g.callbacks)
  {
    D.Faithful(g.writer, y) && ValidInput(g.x, i) && i.revision.uri == g.writer.fence.uri &&
    g.x.encode(i.snapshot).Some? && IsStateAt(g, y.logs.written, n, i) && n <= |y.logs.written| &&
    |y.logs.synced| <= |y.logs.written| && MayCommit(g.x, y.store, i.revision)
  }

  /** Recovery with what `readLatest` finds after the crash. */
  ghost predicate RecoversAfterCrash(g: Setting, y: D.System, i: Input, o: Options)
  {
    D.Undisturbed(g.writer, o) && o.callbacks == g.callbacks &&
    o.latest == LatestRead(g.x, CrashedAfter(g, y, i), o.uri, Current(CrashedAfter(g, y, i), o.uri), Ready)
  }

  /** A commit takes the state after `n` written records, before the log is synced that far or not; then
      comes a crash, recovery, and one more record on top of the recovered head, synced.  The next
      recovery succeeds if and only if the snapshot was not ahead of the synced log, or nothing had been
      synced at all. */
  lemma SnapshotAheadOfLog(g: Setting, y: D.System, i: Input, n: nat, r: CommitRecord, o: Options)
    requires Sound(g) && TakesStateAt(g, y, i, n) && RecoversAfterCrash(g, y, i, o)
    requires ValidRecord(g.writer.codec.syn, r) && Encoded(g.writer.codec, r).Ok?
    requires D.ContinuesLog(g.writer, y.logs.written[..Max(|y.logs.synced|, n)], r)
    ensures var first := Recovering(o, CrashedAfter(g, y, i)).reply;
            first.Ok? && Recovery.Continues(o.uri, first.value.head.revision, r)
    ensures var later := D.GoneOn(o, CrashedAfter(g, y, i), Encoded(g.writer.codec, r).value);
            LatestRead(g.x, later, o.uri, Current(later, o.uri), Ready) == o.latest &&
            (Recovering(o, later).reply.Ok? <==> n <= |y.logs.synced| || y.logs.synced == [])
  {
    hide Recovering, LatestRead, Committed, Step, Crashed, ReplayAll, D.Folded, DecodedWal, Encoded, Frames;
    var log, k := y.logs.written, |y.logs.synced|;
    var base := BaseAt(g, log, n);
    var crashed := CrashedAfter(g, y, i);
    LatestIsState(g, y, i, n);
    LogAfterCrash(g, y, i);
    HeadIsLater(g, log, k, n);
    assert log[..k] == y.logs.synced;
    D.DecodesHeld(g.writer, WalOf(crashed, o.uri).durableBytes, log[..k]) by {
      assert D.Faithful(g.writer, D.System(crashed, D.Logs(log[..k], log[..k])));
    }
    RecoversIff(o, crashed, base, Canonicals(log[..k]));
    NextContinues(g, log, Max(k, n), Recovering(o, crashed).reply.value.head, r);
    OneMoreRecord(g, o, crashed, log[..k], r);
    var later := D.GoneOn(o, crashed, Encoded(g.writer.codec, r).value);
    RecoversIff(o, later, base, Canonicals(log[..k] + [r]));
    NextReplayIff(g, log, k, n, r);
  }
}
