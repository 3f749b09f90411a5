/**
 The log writer of a document and any number of snapshot commits side by side: whatever snapshot
 `readLatest` finds, recovery from it ends where recovery from the start of the log does.
 */
module CheckpointedRecovery {
  import opened Wrappers
  import opened Utf8
  import opened WalRecord
  import opened WalCodec
  import opened Recovery
  import opened DurableStorage
  import opened DocumentRecovery
  import opened SnapshotStore
  import opened ManifestLinearity
  import opened SnapshotReads
  import D = Durability

  datatype Setting = Setting(writer: D.Setup, x: Env, callbacks: Callbacks)

  datatype Joint = Joint(system: D.System, commits: seq<Process>)

  datatype Turn = Writes(move: D.Move) | Commits(action: Action)

  const START := Joint(D.START, [])

  function Taken(g: Setting, j: Joint, turn: Turn): Joint
  {
    match turn
    case Writes(move) => Joint(D.Moved(g.writer, j.system, move), j.commits)
    case Commits(action) =>
      var w := Acted(g.x, WorldOf(j), action);
      Joint(j.system.(store := w.store), w.commits)
  }

  function WorldOf(j: Joint): World { World(j.system.store, j.commits) }

  function Result(g: Setting, turns: seq<Turn>): Joint
  {
    if turns == [] then START else Taken(g, Result(g, turns[..|turns| - 1]), turns[|turns| - 1])
  }

  // ---------------------------------------------------------------- what may happen

  /** Replay accepts everything, the codecs give back what they stored, and keys are not shared. */
  ghost predicate Sound(g: Setting)
  {
    Accepting(g.callbacks) && IgnoresDurability(g.callbacks) && SoundCodec(g.writer.codec) && Separated(g.x) &&
    forall s :: g.x.encode(s).Some? ==> g.x.decode(g.x.encode(s).value) == Some(s)
  }

  /** The document after the first `n` records of a log. */
  ghost function StateAt(g: Setting, log: seq<CommitRecord>, n: nat): Base
    requires Accepting(g.callbacks) && n <= |log|
  {
    D.Folded(g.callbacks, g.writer.base, Canonicals(log[..n]))
  }

  ghost predicate IsStateAt(g: Setting, log: seq<CommitRecord>, n: nat, i: Input)
    requires Accepting(g.callbacks)
  {
    n <= |log| && DraftOf(i.revision) == DraftOf(StateAt(g, log, n).revision) &&
    i.snapshot == StateAt(g, log, n).snapshot
  }

  /** The writer continues its log; a commit of the document takes the state after some synced
      records, as they are when it starts.  Crashes are moves of the writer. */
  ghost predicate Allowed(g: Setting, j: Joint, turn: Turn)
    requires Accepting(g.callbacks)
  {
    match turn
    case Writes(move) => D.Allowed(g.writer, j.system.logs, move) && (move.Elsewhere? ==> WalOp(move.op))
    case Commits(Starts(i)) =>
      ValidInput(g.x, i) && i.revision.uri == g.writer.fence.uri ==>
        exists n: nat :: IsStateAt(g, j.system.logs.synced, n, i)
    case Commits(Continues(_, _)) => true
    case Commits(_) => false
  }

  ghost predicate AllowedRun(g: Setting, turns: seq<Turn>)
    requires Accepting(g.callbacks)
  {
    turns == [] ||
    (AllowedRun(g, turns[..|turns| - 1]) && Allowed(g, Result(g, turns[..|turns| - 1]), turns[|turns| - 1]))
  }

  // ---------------------------------------------------------------- the log

  lemma {:induction false} LogIsFaithful(g: Setting, turns: seq<Turn>)
    requires Accepting(g.callbacks) && AllowedRun(g, turns)
    ensures D.Faithful(g.writer, Result(g, turns).system)
  {
    if turns != [] {
      LogIsFaithful(g, turns[..|turns| - 1]);
      TurnIsFaithful(g, Result(g, turns[..|turns| - 1]), turns[|turns| - 1]);
    }
  }

  lemma TurnIsFaithful(g: Setting, j: Joint, turn: Turn)
    requires Accepting(g.callbacks) && D.Faithful(g.writer, j.system) && Allowed(g, j, turn)
    ensures D.Faithful(g.writer, Taken(g, j, turn).system)
    ensures j.system.logs.synced <= Taken(g, j, turn).system.logs.synced
  {
    match turn
    case Writes(move) =>
      D.MovedFaithful(g.writer, j.system, move);
      D.SyncedLogGrows(g.writer, j.system, move);
    case Commits(action) => CommitsSpareWal(g.x, WorldOf(j), action);
  }

  lemma CommitsSpareWal(x: Env, w: World, action: Action)
    requires action.Starts? || action.Continues?
    ensures Acted(x, w, action).store.wal == w.store.wal
  {
  }

  /** An earlier moment of a run: its synced log is a prefix of the later one. */
  lemma {:induction false} EarlierMoment(g: Setting, turns: seq<Turn>, n: nat)
    requires Accepting(g.callbacks) && AllowedRun(g, turns) && n <= |turns|
    ensures AllowedRun(g, turns[..n])
    ensures Result(g, turns[..n]).system.logs.synced <= Result(g, turns).system.logs.synced
  {
    if n == |turns| {
      assert turns[..n] == turns;
    } else {
      var front := turns[..|turns| - 1];
      EarlierMoment(g, front, n);
      assert front[..n] == turns[..n];
      LogIsFaithful(g, front);
      TurnIsFaithful(g, Result(g, front), turns[|turns| - 1]);
    }
  }

  // ---------------------------------------------------------------- the snapshots

  ghost predicate IsDraftAt(g: Setting, log: seq<CommitRecord>, n: nat, d: Draft)
    requires Accepting(g.callbacks)
  {
    n <= |log| && d == DraftOf(StateAt(g, log, n).revision)
  }

  ghost predicate IsSnapshotAt(g: Setting, log: seq<CommitRecord>, n: nat, id: JsString, s: Snapshot)
    requires Accepting(g.callbacks)
  {
    n <= |log| && id == StateAt(g, log, n).revision.id && s == StateAt(g, log, n).snapshot &&
    s.revisionId == id && s.documentHash == StateAt(g, log, n).revision.documentHash
  }

  /** The states of the document along a log, as drafts and as snapshots. */
  ghost function States(g: Setting, log: seq<CommitRecord>): Scope
    requires Accepting(g.callbacks)
  {
    Scope(g.writer.fence.uri,
      (d: Draft) => Accepting(g.callbacks) && exists n: nat :: IsDraftAt(g, log, n, d),
      (id, s: Snapshot) => Accepting(g.callbacks) && exists n: nat :: IsSnapshotAt(g, log, n, id, s))
  }

  /** What a turn does to storage and commits, as an action beside the other commits. */
  ghost function ActionOf(g: Setting, j: Joint, turn: Turn): Action
    requires Accepting(g.callbacks) && Allowed(g, j, turn)
  {
    match turn
    case Commits(action) => action
    case Writes(Commit(r, gate)) => Otherwise(gate, Append(g.writer.fence, Encoded(g.writer.codec, r).value))
    case Writes(Sync(gate)) => Otherwise(gate, Fsync(g.writer.fence))
    case Writes(Crashing) => Crashes
    case Writes(Elsewhere(gate, op)) => Otherwise(gate, op)
  }

  lemma TurnIsAction(g: Setting, j: Joint, turn: Turn)
    requires Accepting(g.callbacks) && Allowed(g, j, turn)
    ensures WorldOf(Taken(g, j, turn)) == Acted(g.x, WorldOf(j), ActionOf(g, j, turn))
  {
  }

  lemma ActionIsAllowed(g: Setting, log: seq<CommitRecord>, j: Joint, turn: Turn)
    requires Accepting(g.callbacks) && Allowed(g, j, turn) && j.system.logs.synced <= log
    ensures SnapshotReads.Allowed(g.x, States(g, log), ActionOf(g, j, turn))
  {
    if turn.Commits? && turn.action.Starts? {
      StartIsAllowed(g, log, j, turn.action.input);
    }
  }

  lemma StartIsAllowed(g: Setting, log: seq<CommitRecord>, j: Joint, i: Input)
    requires Accepting(g.callbacks) && Allowed(g, j, Commits(Starts(i))) && j.system.logs.synced <= log
    ensures ValidInput(g.x, i) && i.revision.uri == g.writer.fence.uri ==> Within(States(g, log), i)
  {
    if ValidInput(g.x, i) && i.revision.uri == g.writer.fence.uri {
      var n: nat :| IsStateAt(g, j.system.logs.synced, n, i);
      assert j.system.logs.synced[..n] == log[..n];
      assert IsDraftAt(g, log, n, DraftOf(i.revision)) && IsSnapshotAt(g, log, n, i.revision.id, i.snapshot);
    }
  }

  lemma {:induction false} RunKeepsStates(g: Setting, log: seq<CommitRecord>, turns: seq<Turn>)
    requires Sound(g) && AllowedRun(g, turns) && Result(g, turns).system.logs.synced <= log
    ensures Invariant(g.x, States(g, log), WorldOf(Result(g, turns)))
  {
    if turns != [] {
      var front := turns[..|turns| - 1];
      EarlierMoment(g, turns, |turns| - 1);
      RunKeepsStates(g, log, front);
      TurnKeepsStates(g, log, Result(g, front), turns[|turns| - 1]);
    }
  }

  lemma TurnKeepsStates(g: Setting, log: seq<CommitRecord>, j: Joint, turn: Turn)
    requires Sound(g) && Allowed(g, j, turn) && j.system.logs.synced <= log
    requires Invariant(g.x, States(g, log), WorldOf(j))
    ensures Invariant(g.x, States(g, log), WorldOf(Taken(g, j, turn)))
    ensures Grows(j.system.store, Taken(g, j, turn).system.store)
  {
    hide Acted, Taken, Invariant, States, Grows;
    TurnIsAction(g, j, turn);
    ActionIsAllowed(g, log, j, turn);
    SnapshotReads.ActionKeepsInvariant(g.x, States(g, log), WorldOf(j), ActionOf(g, j, turn));
  }

  lemma {:induction false} StoreGrows(g: Setting, turns: seq<Turn>, n: nat)
    requires Sound(g) && AllowedRun(g, turns) && n <= |turns|
    ensures Grows(Result(g, turns[..n]).system.store, Result(g, turns).system.store)
  {
    hide Grows, States, Invariant;
    if n == |turns| {
      assert turns[..n] == turns;
      SameManifestsGrow(Result(g, turns).system.store, Result(g, turns).system.store);
    } else {
      var front := turns[..|turns| - 1];
      StoreGrows(g, front, n);
      assert front[..n] == turns[..n];
      var log := Result(g, front).system.logs.synced;
      RunKeepsStates(g, log, front);
      TurnKeepsStates(g, log, Result(g, front), turns[|turns| - 1]);
      GrowsTransitive(Result(g, turns[..n]).system.store, Result(g, front).system.store, Result(g, turns).system.store);
    }
  }

  // ---------------------------------------------------------------- one state per revision id

  lemma StateIds(g: Setting, log: seq<CommitRecord>, n: nat)
    requires Accepting(g.callbacks) && D.WriterLog(g.writer, log) && n <= |log|
    ensures StateAt(g, log, n).revision.id == if n == 0 then g.writer.base.revision.id else log[n - 1].revisionId
  {
    D.WriterLogPrefix(g.writer, log, n);
    D.ReplayIsFold(g.callbacks, g.writer, log[..n]);
  }

  lemma StatesHaveDistinctIds(g: Setting, log: seq<CommitRecord>, n: nat, m: nat)
    requires Accepting(g.callbacks) && D.WriterLog(g.writer, log) && n < m <= |log|
    ensures StateAt(g, log, n).revision.id != StateAt(g, log, m).revision.id
  {
    StateIds(g, log, n);
    StateIds(g, log, m);
    assert D.ContinuesLog(g.writer, log[..m - 1], log[m - 1]);
    if n > 0 { assert log[..m - 1][n - 1] == log[n - 1]; }
  }

  /** Reading a manifest and its snapshot gives one state of the document, tagged `snapshot`. */
  lemma ReadsAState(g: Setting, log: seq<CommitRecord>, st: Store, m: Manifest) returns (n: nat)
    requires Sound(g) && D.WriterLog(g.writer, log) && Readable(g.x, States(g, log), st, m)
    ensures n <= |log|
    ensures LatestRead(g.x, st, g.writer.fence.uri, Some(m), Ready)
         == Ok(Some(Tagged(StateAt(g, log, n), SnapshotLevel)))
  {
    var bytes := st.snapshots[StorageKey(g.writer.fence.uri, SnapKey(m.draft.revisionId))];
    n :| IsDraftAt(g, log, n, m.draft);
    var s :| States(g, log).snapshots(m.draft.revisionId, s) && g.x.encode(s) == Some(bytes);
    var k: nat :| IsSnapshotAt(g, log, k, m.draft.revisionId, s);
    if n < k {
      StatesHaveDistinctIds(g, log, n, k);
    } else if k < n {
      StatesHaveDistinctIds(g, log, k, n);
    }
  }

  // ---------------------------------------------------------------- the theorem

  /** The recovery whose `readLatest` saw the manifest after `n` turns and the snapshot after `m`. */
  ghost predicate ReadsAt(g: Setting, turns: seq<Turn>, n: nat, m: nat, o: Options)
    requires n <= m <= |turns|
  {
    o.latest == LatestRead(g.x, Result(g, turns[..m]).system.store, g.writer.fence.uri,
                           Current(Result(g, turns[..n]).system.store, g.writer.fence.uri), Ready) &&
    o.fallback == g.writer.base && ValidFallback(o.uri, o.fallback)
  }

  /** After any run of the writer with commits and crashes at any await, recovery reads the manifest,
      the snapshot and the log at three moments in this order, and still returns the state after the
      whole synced log, up to the durability tag. */
  lemma CheckpointedRecoveryIsTransparent(g: Setting, turns: seq<Turn>, n: nat, m: nat, o: Options)
    requires Sound(g) && AllowedRun(g, turns) && n <= m <= |turns|
    requires D.Undisturbed(g.writer, o) && o.callbacks == g.callbacks && ReadsAt(g, turns, n, m, o)
    ensures var j := Result(g, turns).system;
            var recovered := Recovering(o, j.store).reply;
            recovered.Ok? && D.UpToTag(recovered.value.head, StateAt(g, j.logs.synced, |j.logs.synced|))
  {
    hide Recovering, LatestRead, D.Folded;
    var j := Result(g, turns).system;
    var log := j.logs.synced;
    LogIsFaithful(g, turns);
    assert log[..|log|] == log;
    var seen := Current(Result(g, turns[..n]).system.store, o.uri);
    if seen.None? {
      NothingToRead(g, Result(g, turns[..m]).system.store, o.uri);
      D.RecoversSynced(g.writer, j, o);
      assert D.Folded(o.callbacks, g.writer.base, Canonicals(log))
          == Tagged(StateAt(g, log, |log|), StateAt(g, log, |log|).revision.durability);
    } else {
      SeenLater(g, turns, n, m);
      var at := ReadsAState(g, log, Result(g, turns[..m]).system.store, seen.value);
      D.RecoversFromCheckpoint(g.writer, j, o, at);
    }
  }

  lemma NothingToRead(g: Setting, st: Store, uri: JsString)
    ensures LatestRead(g.x, st, uri, None, Ready) == Ok(None)
  {
  }

  lemma SeenLater(g: Setting, turns: seq<Turn>, n: nat, m: nat)
    requires Sound(g) && AllowedRun(g, turns) && n <= m <= |turns|
    requires g.writer.fence.uri in Result(g, turns[..n]).system.store.manifests
    ensures Readable(g.x, States(g, Result(g, turns).system.logs.synced), Result(g, turns[..m]).system.store,
                     Result(g, turns[..n]).system.store.manifests[g.writer.fence.uri])
  {
    hide Grows, GoodStore, Readable;
    var log := Result(g, turns).system.logs.synced;
    EarlierMoment(g, turns, m);
    EarlierMoment(g, turns, n);
    RunKeepsStates(g, log, turns[..n]);
    RunKeepsStates(g, log, turns[..m]);
    assert turns[..m][..n] == turns[..n];
    StoreGrows(g, turns[..m], n);
    SeenIsReadable(g.x, States(g, log), Result(g, turns[..n]).system.store, Result(g, turns[..m]).system.store);
  }
}
