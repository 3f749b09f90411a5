/**
 What `readLatest` finds while commits, log traffic and crashes go on: the manifest of a document
 always has its snapshot, and the snapshot is one that was committed for its revision.
 */
module SnapshotReads {
  import opened Wrappers
  import opened Utf8
  import CanonicalJson
  import opened Recovery
  import WalRecord
  import opened DurableStorage
  import opened SnapshotStore
  import opened ManifestLinearity

  /** One document, and what its commits may bring: these drafts, and these snapshots of a revision. */
  datatype Scope = Scope(uri: JsString, drafts: Draft -> bool, snapshots: (JsString, Snapshot) -> bool)

  /** Documents do not share storage keys. */
  ghost predicate Separated(x: Env) { forall uri :: x.isDocumentUri(uri) ==> NulFree(uri) }

  predicate WalOp(op: Op) { op.Append? || op.Fsync? || op.ReadDurable? || op.TruncateDurable? }

  ghost predicate Within(c: Scope, i: Input)
  {
    c.drafts(DraftOf(i.revision)) && c.snapshots(i.revision.id, i.snapshot)
  }

  /** Commits of the document bring what the scope says, and only commits touch snapshots. */
  ghost predicate Allowed(x: Env, c: Scope, action: Action)
  {
    match action
    case Starts(i) => ValidInput(x, i) && i.revision.uri == c.uri ==> Within(c, i)
    case Otherwise(_, op) => WalOp(op)
    case _ => true
  }

  ghost predicate AllowedRun(x: Env, c: Scope, actions: seq<Action>)
  {
    forall i :: 0 <= i < |actions| ==> Allowed(x, c, actions[i])
  }

  // ---------------------------------------------------------------- the invariant

  /** These bytes encode a snapshot that belongs to this revision. */
  ghost predicate Good(x: Env, c: Scope, id: JsString, bytes: Bytes)
  {
    exists s :: c.snapshots(id, s) && x.encode(s) == Some(bytes)
  }

  ghost predicate GoodTemporaries(x: Env, c: Scope, temporary: map<JsString, Bytes>)
  {
    forall id :: NulFree(c.uri) && StorageKey(c.uri, TempKey(id)) in temporary ==>
      Good(x, c, id, temporary[StorageKey(c.uri, TempKey(id))])
  }

  ghost predicate GoodSnapshots(x: Env, c: Scope, snapshots: map<JsString, Bytes>)
  {
    forall id :: NulFree(c.uri) && StorageKey(c.uri, SnapKey(id)) in snapshots ==>
      Good(x, c, id, snapshots[StorageKey(c.uri, SnapKey(id))])
  }

  ghost predicate GoodManifest(x: Env, c: Scope, st: Store)
  {
    c.uri in st.manifests ==>
      var m := st.manifests[c.uri];
      Normal(x, m, c.uri) && c.drafts(m.draft) && StorageKey(c.uri, SnapKey(m.draft.revisionId)) in st.snapshots
  }

  ghost predicate GoodStore(x: Env, c: Scope, st: Store)
  {
    GoodTemporaries(x, c, st.temporary) && GoodSnapshots(x, c, st.snapshots) && GoodManifest(x, c, st)
  }

  ghost predicate GoodProcess(x: Env, c: Scope, st: Store, p: Process)
  {
    var i := p.input;
    i.fence.uri == c.uri ==>
      (p.pc.Done? || Within(c, i)) &&
      (p.pc.WritingTemporary? ==> x.encode(i.snapshot) == Some(p.pc.bytes)) &&
      (p.pc.ReadingManifest? || p.pc.Switching? ==> StorageKey(c.uri, SnapKey(i.revision.id)) in st.snapshots)
  }

  ghost predicate Invariant(x: Env, c: Scope, w: World)
  {
    AllOrdered(x, w) && GoodStore(x, c, w.store) &&
    forall k :: 0 <= k < |w.commits| ==> GoodProcess(x, c, w.store, w.commits[k])
  }

  // ---------------------------------------------------------------- storage keys

  lemma KeyInjective(id: JsString, id': JsString)
    requires SnapKey(id) == SnapKey(id') || TempKey(id) == TempKey(id')
    ensures id == id'
  {
    var n := |CanonicalJson.Lit("snapshot:")|;
    assert SnapKey(id)[n..] == id && SnapKey(id')[n..] == id';
    if TempKey(id) == TempKey(id') {
      assert |SnapKey(id)| == |SnapKey(id')|;
      assert TempKey(id)[..|SnapKey(id)|] == SnapKey(id) && TempKey(id')[..|SnapKey(id')|] == SnapKey(id');
    }
  }

  lemma TemporariesStayGood(x: Env, c: Scope, temporary: map<JsString, Bytes>, uri: JsString, id: JsString,
                            bytes: Bytes)
    requires GoodTemporaries(x, c, temporary) && NulFree(uri) && (uri == c.uri ==> Good(x, c, id, bytes))
    ensures GoodTemporaries(x, c, temporary[StorageKey(uri, TempKey(id)) := bytes])
  {
    var after := temporary[StorageKey(uri, TempKey(id)) := bytes];
    forall id' | NulFree(c.uri) && StorageKey(c.uri, TempKey(id')) in after
      ensures Good(x, c, id', after[StorageKey(c.uri, TempKey(id'))])
    {
      if StorageKey(c.uri, TempKey(id')) == StorageKey(uri, TempKey(id)) {
        StorageKeyInjective(c.uri, TempKey(id'), uri, TempKey(id));
        KeyInjective(id, id');
      }
    }
  }

  lemma SnapshotsStayGood(x: Env, c: Scope, snapshots: map<JsString, Bytes>, uri: JsString, id: JsString, bytes: Bytes)
    requires GoodSnapshots(x, c, snapshots) && NulFree(uri) && (uri == c.uri ==> Good(x, c, id, bytes))
    ensures GoodSnapshots(x, c, snapshots[StorageKey(uri, SnapKey(id)) := bytes])
  {
    var after := snapshots[StorageKey(uri, SnapKey(id)) := bytes];
    forall id' | NulFree(c.uri) && StorageKey(c.uri, SnapKey(id')) in after
      ensures Good(x, c, id', after[StorageKey(c.uri, SnapKey(id'))])
    {
      if StorageKey(c.uri, SnapKey(id')) == StorageKey(uri, SnapKey(id)) {
        StorageKeyInjective(c.uri, SnapKey(id'), uri, SnapKey(id));
        KeyInjective(id, id');
      }
    }
  }

  // ---------------------------------------------------------------- each await keeps it

  /** Only commits that are not done act, and theirs are document URIs. */
  ghost predicate Acting(x: Env, c: Scope, st: Store, i: Input, pc: Pc)
  {
    Separated(x) && Ordered(x, st, Process(i, pc)) && GoodStore(x, c, st) && GoodProcess(x, c, st, Process(i, pc))
  }

  ghost predicate Fine(x: Env, c: Scope, i: Input, next: Progress)
  {
    GoodStore(x, c, next.store) && GoodProcess(x, c, next.store, Process(i, next.pc))
  }

  lemma AwaitKeepsStored(x: Env, c: Scope, st: Store, i: Input, pc: Pc, gate: Gate)
    requires Acting(x, c, st, i, pc)
    ensures Fine(x, c, i, Advanced(x, st, i, pc, gate))
  {
    match pc
    case WritingTemporary(bytes) => WriteStep(x, c, st, i, bytes, gate);
    case Renaming => RenameStep(x, c, st, i, gate);
    case Switching(seen) => SwitchStep(x, c, st, i, seen, gate);
    case _ => QuietStep(x, c, st, i, pc, gate);
  }

  lemma WriteStep(x: Env, c: Scope, st: Store, i: Input, bytes: Bytes, gate: Gate)
    requires Acting(x, c, st, i, WritingTemporary(bytes))
    ensures Fine(x, c, i, Advanced(x, st, i, WritingTemporary(bytes), gate))
  {
    TemporariesStayGood(x, c, st.temporary, i.fence.uri, i.revision.id, bytes);
  }

  lemma RenameStep(x: Env, c: Scope, st: Store, i: Input, gate: Gate)
    requires Acting(x, c, st, i, Renaming)
    ensures Fine(x, c, i, Advanced(x, st, i, Renaming, gate))
  {
    var source := StorageKey(i.fence.uri, TempKey(i.revision.id));
    if source in st.temporary {
      SnapshotsStayGood(x, c, st.snapshots, i.fence.uri, i.revision.id, st.temporary[source]);
    }
  }

  lemma SwitchStep(x: Env, c: Scope, st: Store, i: Input, seen: Option<Manifest>, gate: Gate)
    requires Acting(x, c, st, i, Switching(seen))
    ensures Fine(x, c, i, Advanced(x, st, i, Switching(seen), gate))
  {
    hide Advanced, Normal, ValidInput;
    SwitchReplies(x, st, i, seen, gate);
  }

  lemma QuietStep(x: Env, c: Scope, st: Store, i: Input, pc: Pc, gate: Gate)
    requires Acting(x, c, st, i, pc) && !pc.WritingTemporary? && !pc.Renaming? && !pc.Switching?
    ensures Fine(x, c, i, Advanced(x, st, i, pc, gate))
  {
  }

  /** Nothing but the WAL changed, except that temporaries may be gone. */
  predicate Spared(st: Store, st': Store)
  {
    st'.snapshots == st.snapshots && st'.manifests == st.manifests &&
    (st'.temporary == st.temporary || st'.temporary == map[])
  }

  lemma SparedStaysGood(x: Env, c: Scope, st: Store, st': Store)
    requires GoodStore(x, c, st) && Spared(st, st')
    ensures GoodStore(x, c, st')
  {
  }

  lemma StoreStaysGood(x: Env, c: Scope, w: World, action: Action)
    requires Separated(x) && Invariant(x, c, w) && Allowed(x, c, action)
    ensures GoodStore(x, c, Acted(x, w, action).store)
    ensures action.Continues? && action.k < |w.commits| ==>
      GoodProcess(x, c, Acted(x, w, action).store, Acted(x, w, action).commits[action.k])
    ensures action.Starts? ==> GoodProcess(x, c, w.store, Process(action.input, Begun(x, action.input)))
  {
    hide Advanced, GoodStore, GoodProcess, Ordered;
    match action
    case Continues(k, gate) =>
      if k < |w.commits| {
        AwaitKeepsStored(x, c, w.store, w.commits[k].input, w.commits[k].pc, gate);
      }
    case Starts(i) => BegunIsGood(x, c, w.store, i);
    case _ => SparedStaysGood(x, c, w.store, Acted(x, w, action).store);
  }

  lemma BegunIsGood(x: Env, c: Scope, st: Store, i: Input)
    requires ValidInput(x, i) && i.revision.uri == c.uri ==> Within(c, i)
    ensures GoodProcess(x, c, st, Process(i, Begun(x, i)))
  {
  }

  lemma ActionKeepsInvariant(x: Env, c: Scope, w: World, action: Action)
    requires Separated(x) && Invariant(x, c, w) && Allowed(x, c, action)
    ensures Invariant(x, c, Acted(x, w, action)) && Grows(w.store, Acted(x, w, action).store)
  {
    var next := Acted(x, w, action);
    ActionGrows(x, w, action);
    StoreStaysGood(x, c, w, action);
    hide Advanced, GoodStore, Within, Step, Crashed;
    forall k | 0 <= k < |next.commits| ensures GoodProcess(x, c, next.store, next.commits[k]) {
      if k < |w.commits| && next.commits[k] == w.commits[k] {
        assert GoodProcess(x, c, w.store, w.commits[k]);
      }
    }
  }

  lemma {:induction false} RunKeepsInvariant(x: Env, c: Scope, actions: seq<Action>)
    requires Separated(x) && AllowedRun(x, c, actions)
    ensures Invariant(x, c, After(x, actions))
  {
    if actions != [] {
      RunKeepsInvariant(x, c, actions[..|actions| - 1]);
      ActionKeepsInvariant(x, c, After(x, actions[..|actions| - 1]), actions[|actions| - 1]);
    }
  }

  // ---------------------------------------------------------------- reading

  /** A manifest that was current at some moment, in any later store. */
  ghost predicate Readable(x: Env, c: Scope, st: Store, m: Manifest)
  {
    Normal(x, m, c.uri) && c.drafts(m.draft) &&
    var key := StorageKey(c.uri, SnapKey(m.draft.revisionId));
    key in st.snapshots && Good(x, c, m.draft.revisionId, st.snapshots[key])
  }

  lemma SeenIsReadable(x: Env, c: Scope, st: Store, st': Store)
    requires Separated(x) && GoodStore(x, c, st) && GoodStore(x, c, st') && Grows(st, st') && c.uri in st.manifests
    ensures Readable(x, c, st', st.manifests[c.uri])
  {
  }

  /** Reading what is readable gives the revision of the manifest, with a snapshot of that revision. */
  ghost predicate KeepsIdentity(x: Env)
  {
    forall s :: x.encode(s).Some? ==>
      var back := x.decode(x.encode(s).value);
      back.Some? && back.value.revisionId == s.revisionId && back.value.documentHash == s.documentHash
  }

  /** Some commit of this run brought this document hash for this revision. */
  ghost predicate Brought(x: Env, actions: seq<Action>, uri: JsString, id: JsString, hash: JsString)
  {
    exists k :: 0 <= k < |actions| && Brings(x, actions[k], uri, id, hash)
  }

  predicate Brings(x: Env, action: Action, uri: JsString, id: JsString, hash: JsString)
  {
    action.Starts? && ValidInput(x, action.input) && action.input.revision.uri == uri &&
    action.input.revision.id == id && action.input.revision.documentHash == hash
  }

  /** No two commits of the document give one revision id different document hashes. */
  ghost predicate OneHashPerRevision(x: Env, actions: seq<Action>, uri: JsString)
  {
    forall id, h, h' :: Brought(x, actions, uri, id, h) && Brought(x, actions, uri, id, h') ==> h == h'
  }

  ghost function ScopeOf(x: Env, actions: seq<Action>, uri: JsString): Scope
  {
    Scope(uri,
      (d: Draft) => Brought(x, actions, uri, d.revisionId, d.documentHash),
      (id, s: Snapshot) => s.revisionId == id && Brought(x, actions, uri, id, s.documentHash))
  }

  ghost predicate OnlyWalBeside(actions: seq<Action>)
  {
    forall i :: 0 <= i < |actions| ==> actions[i].Otherwise? ==> WalOp(actions[i].op)
  }

  lemma RunIsWithinItsScope(x: Env, actions: seq<Action>, uri: JsString)
    requires OnlyWalBeside(actions)
    ensures AllowedRun(x, ScopeOf(x, actions, uri), actions)
  {
    var c := ScopeOf(x, actions, uri);
    forall i | 0 <= i < |actions| ensures Allowed(x, c, actions[i]) {
      if actions[i].Starts? && ValidInput(x, actions[i].input) && actions[i].input.revision.uri == uri {
        var v := actions[i].input.revision;
        assert Brings(x, actions[i], uri, v.id, v.documentHash);
      }
    }
  }

  /** A reader that saw a manifest at any moment and reads its snapshot at any later one, across
      switches and crashes, gets a snapshot of exactly that revision. */
  lemma ReadLatestNeverCorrupt(x: Env, actions: seq<Action>, n: nat, uri: JsString)
    requires Separated(x) && KeepsIdentity(x) && OnlyWalBeside(actions) && OneHashPerRevision(x, actions, uri)
    requires n <= |actions|
    ensures var seen := Current(After(x, actions[..n]).store, uri);
            var read := LatestRead(x, After(x, actions).store, uri, seen, Ready);
            read.Ok? && (read.value.None? <==> seen.None?) &&
            (seen.Some? ==> read.value.value.revision == RevisionOf(seen.value.draft) &&
                            read.value.value.snapshot.revisionId == seen.value.draft.revisionId &&
                            read.value.value.snapshot.documentHash == seen.value.draft.documentHash)
  {
    hide After, OneHashPerRevision, Invariant, GoodStore, Grows;
    var c := ScopeOf(x, actions, uri);
    var st, st' := After(x, actions[..n]).store, After(x, actions).store;
    StoresOfRun(x, actions, n, uri);
    if uri in st.manifests {
      SeenIsReadable(x, c, st, st');
      ReadableReads(x, actions, uri, st', st.manifests[uri]);
    }
  }

  lemma StoresOfRun(x: Env, actions: seq<Action>, n: nat, uri: JsString)
    requires Separated(x) && OnlyWalBeside(actions) && n <= |actions|
    ensures var c := ScopeOf(x, actions, uri);
            var st, st' := After(x, actions[..n]).store, After(x, actions).store;
            GoodStore(x, c, st) && GoodStore(x, c, st') && Grows(st, st')
  {
    hide After, ScopeOf, GoodStore, Grows;
    RunIsWithinItsScope(x, actions, uri);
    var c := ScopeOf(x, actions, uri);
    assert AllowedRun(x, c, actions[..n]) by { assert forall i :: 0 <= i < n ==> actions[..n][i] == actions[i]; }
    RunKeepsInvariant(x, c, actions[..n]);
    RunKeepsInvariant(x, c, actions);
    assert OnlyCommitsSwitch(actions);
    ManifestsAreLinear(x, actions, n);
  }

  lemma ReadableReads(x: Env, actions: seq<Action>, uri: JsString, st: Store, m: Manifest)
    requires KeepsIdentity(x) && OneHashPerRevision(x, actions, uri) && Readable(x, ScopeOf(x, actions, uri), st, m)
    ensures var read := LatestRead(x, st, uri, Some(m), Ready);
            read.Ok? && read.value.Some? && read.value.value.revision == RevisionOf(m.draft) &&
            read.value.value.snapshot.revisionId == m.draft.revisionId &&
            read.value.value.snapshot.documentHash == m.draft.documentHash
  {
    var c := ScopeOf(x, actions, uri);
    var bytes := st.snapshots[StorageKey(uri, SnapKey(m.draft.revisionId))];
    var s :| c.snapshots(m.draft.revisionId, s) && x.encode(s) == Some(bytes);
    hide Brought;
  }

  // ---------------------------------------------------------------- one hash per revision is needed

  const ALL_READY := [Ready, Ready, Ready, Ready, Ready, Ready]

  /** A commit after its first four awaits, undisturbed. */
  function AfterFour(x: Env, st: Store, i: Input): Progress
  {
    var p := Advance(x, i, Advance(x, i, Progress(st, Begun(x, i)), Ready), Ready);
    Advance(x, i, Advance(x, i, p, Ready), Ready)
  }

  /** By then its snapshot is in place. */
  lemma SnapshotInPlace(x: Env, st: Store, i: Input)
    requires ValidInput(x, i) && x.encode(i.snapshot).Some? && KeepsIdentity(x)
    ensures var p := AfterFour(x, st, i);
            var key := StorageKey(i.fence.uri, SnapKey(i.revision.id));
            p.pc == ReadingManifest && p.store.manifests == st.manifests &&
            p.store.snapshots == st.snapshots[key := x.encode(i.snapshot).value]
  {
    hide Normal;
  }

  /** A later sequence, and a generation that can still be raised. */
  predicate Supersedes(v: Revision, m: Manifest)
  {
    v.sequence > m.draft.sequence && m.generation < WalRecord.MAX_SAFE_INTEGER
  }

  /** A second commit of the current revision id, running alone and without faults, leaves the document
      readable exactly when it brings the same document hash or supersedes the manifest.  Otherwise it is
      refused, but only after it has replaced the snapshot. */
  lemma SecondCommitOfRevision(x: Env, st: Store, m: Manifest, i: Input)
    requires KeepsIdentity(x) && ValidInput(x, i) && x.encode(i.snapshot).Some?
    requires Current(st, i.fence.uri) == Some(m) && Normal(x, m, i.fence.uri)
    requires m.draft.revisionId == i.revision.id
    ensures var after := Alone(x, i, Progress(st, Begun(x, i)), ALL_READY);
            var read := LatestRead(x, after.store, i.fence.uri, Current(after.store, i.fence.uri), Ready);
            (read.Ok? <==> i.revision.documentHash == m.draft.documentHash || Supersedes(i.revision, m)) &&
            (!read.Ok? ==> after.pc == Done(Err(GenerationConflict)))
  {
    AloneSix(x, i, Progress(st, Begun(x, i)), ALL_READY);
    SnapshotInPlace(x, st, i);
    SwitchedOrRefused(x, AfterFour(x, st, i).store, m, i);
  }

  lemma SwitchedOrRefused(x: Env, st: Store, m: Manifest, i: Input)
    requires KeepsIdentity(x) && ValidInput(x, i) && x.encode(i.snapshot).Some?
    requires Current(st, i.fence.uri) == Some(m) && Normal(x, m, i.fence.uri)
    requires m.draft.revisionId == i.revision.id
    requires var key := StorageKey(i.fence.uri, SnapKey(i.revision.id));
             key in st.snapshots && st.snapshots[key] == x.encode(i.snapshot).value
    ensures var after := Advance(x, i, Advance(x, i, Progress(st, ReadingManifest), Ready), Ready);
            var read := LatestRead(x, after.store, i.fence.uri, Current(after.store, i.fence.uri), Ready);
            (read.Ok? <==> i.revision.documentHash == m.draft.documentHash || Supersedes(i.revision, m)) &&
            (!read.Ok? ==> after.pc == Done(Err(GenerationConflict)))
  {
  }
}
