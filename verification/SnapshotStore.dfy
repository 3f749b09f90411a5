/**
 `AtomicSnapshotStore` of `src/storage/snapshot-store.ts`: write a temporary, sync it, check it,
 rename it, read the manifest and switch it.  Each of these is one await of the source, so between
 any two of them other commits, reads and crashes may happen.
 */
module SnapshotStore {
  import opened Wrappers
  import opened Utf8
  import opened WalRecord
  import opened CanonicalJson
  import opened Recovery
  import opened DurableStorage

  /** What the store takes from elsewhere: the snapshot codec and the field formats. */
  datatype Env = Env(
    encode: Snapshot -> Option<Bytes>,
    decode: Bytes -> Option<Snapshot>,
    isDocumentUri: JsString -> bool,
    isRevisionId: JsString -> bool,
    isTransactionId: JsString -> bool,
    isHash: JsString -> bool,
    isActor: JsString -> bool,
    isTimestamp: JsString -> bool)

  datatype Input = Input(fence: Fence, revision: Revision, snapshot: Snapshot)

  // ---------------------------------------------------------------- the pure parts

  function SnapKey(id: JsString): JsString { Lit("snapshot:") + id }

  function TempKey(id: JsString): JsString { SnapKey(id) + Lit(".tmp") }

  /** `normalizeSnapshotManifest`, on a manifest of the right shape. */
  predicate Normal(x: Env, m: Manifest, uri: JsString)
  {
    var d := m.draft;
    x.isDocumentUri(d.uri) && d.uri == uri &&
    x.isRevisionId(d.revisionId) && (d.parentRevisionId.Some? ==> x.isRevisionId(d.parentRevisionId.value)) &&
    x.isTransactionId(d.transactionId) && x.isHash(d.documentHash) &&
    x.isActor(d.actor) && x.isTimestamp(d.createdAt) &&
    d.sequence <= MAX_SAFE_INTEGER && 1 <= m.generation <= MAX_SAFE_INTEGER &&
    d.snapshotKey == SnapKey(d.revisionId) &&
    (d.sequence == 0 <==> d.parentRevisionId.None?) && d.parentRevisionId != Some(d.revisionId)
  }

  /** The revision a normal manifest describes. */
  function RevisionOf(d: Draft): Revision
  {
    Revision(d.revisionId, d.uri, d.parentRevisionId, d.transactionId, d.sequence, d.documentHash,
             d.actor, d.createdAt, SnapshotLevel)
  }

  function DraftOf(v: Revision): Draft
  {
    Draft(v.uri, v.id, v.parentRevisionId, v.transactionId, v.sequence, v.documentHash, v.actor, v.createdAt,
          SnapKey(v.id))
  }

  /** `prepareSnapshotManifestDraft` */
  predicate ValidInput(x: Env, i: Input)
  {
    i.fence.uri == i.revision.uri && i.snapshot.revisionId == i.revision.id &&
    i.snapshot.documentHash == i.revision.documentHash && Normal(x, Manifest(DraftOf(i.revision), 1), i.revision.uri)
  }

  /** `sameImmutableRevisionIdentity` */
  predicate SameIdentity(a: Revision, b: Revision)
  {
    a.id == b.id && a.uri == b.uri && a.parentRevisionId == b.parentRevisionId &&
    a.transactionId == b.transactionId && a.sequence == b.sequence && a.documentHash == b.documentHash &&
    a.createdAt == b.createdAt && a.actor == b.actor
  }

  /** `validateManifestAdvance` */
  predicate MayAdvance(current: Option<Manifest>, next: Revision)
  {
    current.None? ||
    (current.value.generation != MAX_SAFE_INTEGER &&
     current.value.draft.sequence <= next.sequence &&
     (current.value.draft.sequence == next.sequence ==> SameIdentity(RevisionOf(current.value.draft), next)))
  }

  function Generation(current: Option<Manifest>): nat { if current.None? then 0 else current.value.generation }

  predicate Identifies(s: Option<Snapshot>, v: Revision)
  {
    s.Some? && s.value.revisionId == v.id && s.value.documentHash == v.documentHash
  }

  // ---------------------------------------------------------------- one commit, await by await

  datatype Pc =
    | WritingTemporary(bytes: Bytes)
    | SyncingTemporary(bytes: Bytes)
    | ReadingTemporary(bytes: Bytes)
    | Renaming
    | ReadingManifest
    | Switching(seen: Option<Manifest>)
    | Done(reply: Result<Manifest, PortError>)

  datatype Progress = Progress(store: Store, pc: Pc)

  /** What happens before the first await. */
  function Begun(x: Env, i: Input): Pc
  {
    if !ValidInput(x, i) then Done(Err(Corrupted))
    else match x.encode(i.snapshot)
      case None => Done(Err(Corrupted))
      case Some(bytes) => WritingTemporary(bytes)
  }

  function Then(reply: Result<(), PortError>, next: Pc): Pc
  {
    if reply.Ok? then next else Done(Err(reply.error))
  }

  /** One await of `commit`, and what follows it up to the next one. */
  function Advanced(x: Env, st: Store, i: Input, pc: Pc, gate: Gate): Progress
  {
    match pc
    case WritingTemporary(bytes) =>
      var e := TemporaryWritten(st, gate, i.fence.uri, TempKey(i.revision.id), bytes);
      Progress(e.store, Then(e.reply, SyncingTemporary(bytes)))
    case SyncingTemporary(bytes) =>
      var e := TemporarySynced(st, gate, i.fence.uri, TempKey(i.revision.id));
      Progress(e.store, Then(e.reply, ReadingTemporary(bytes)))
    case ReadingTemporary(bytes) => Progress(st, TemporaryChecked(x, st, i, bytes, gate))
    case Renaming =>
      var e := Renamed(st, gate, i.fence.uri, TempKey(i.revision.id), SnapKey(i.revision.id));
      Progress(e.store, Then(e.reply, ReadingManifest))
    case ReadingManifest => Progress(st, ManifestChecked(x, st, i, gate))
    case Switching(seen) =>
      var e := ManifestSwitched(st, gate, i.fence.uri, Generation(seen), DraftOf(i.revision));
      var valid := e.reply.Ok? ==> Normal(x, e.reply.value, i.revision.uri);
      Progress(e.store, Done(if valid then e.reply else Err(Corrupted)))
    case Done(_) => Progress(st, pc)
  }

  /** `#validateTemporary` */
  function TemporaryChecked(x: Env, st: Store, i: Input, bytes: Bytes, gate: Gate): Pc
  {
    match ReadTemporary(st, gate, i.revision.uri, TempKey(i.revision.id))
    case Err(e) => Done(Err(e))
    case Ok(found) =>
      if found == bytes && Identifies(x.decode(found), i.revision) then Renaming else Done(Err(Corrupted))
  }

  function ManifestChecked(x: Env, st: Store, i: Input, gate: Gate): Pc
  {
    match ReadManifest(st, gate, i.revision.uri)
    case Err(e) => Done(Err(e))
    case Ok(seen) =>
      if seen.Some? && !Normal(x, seen.value, i.revision.uri) then Done(Err(Corrupted))
      else if !MayAdvance(seen, i.revision) then Done(Err(GenerationConflict))
      else Switching(seen)
  }

  /** `readLatest` after the manifest was read. */
  function LatestRead(x: Env, st: Store, uri: JsString, seen: Option<Manifest>,
                      gate: Gate): Result<Option<Base>, PortError>
  {
    if seen.None? then Ok(None)
    else if !Normal(x, seen.value, uri) then Err(Corrupted)
    else match ReadSnapshot(st, gate, uri, seen.value.draft.snapshotKey)
      case Err(e) => Err(e)
      case Ok(None) => Err(Corrupted)
      case Ok(Some(bytes)) =>
        var v := RevisionOf(seen.value.draft);
        if Identifies(x.decode(bytes), v) then Ok(Some(Base(v, x.decode(bytes).value))) else Err(Corrupted)
  }

  /** The manifest is normal, and the snapshot it names is there and decodes to one of its revision: this base. */
  ghost predicate IsLatest(st: Store, x: Env, uri: JsString, base: Base)
  {
    uri in st.manifests && Normal(x, st.manifests[uri], uri) &&
    base.revision == RevisionOf(st.manifests[uri].draft) &&
    StorageKey(uri, st.manifests[uri].draft.snapshotKey) in st.snapshots &&
    x.decode(st.snapshots[StorageKey(uri, st.manifests[uri].draft.snapshotKey)]) == Some(base.snapshot) &&
    base.snapshot.revisionId == base.revision.id && base.snapshot.documentHash == base.revision.documentHash
  }

  // ---------------------------------------------------------------- the methods, undisturbed

  function Advance(x: Env, i: Input, p: Progress, gate: Gate): Progress { Advanced(x, p.store, i, p.pc, gate) }

  /** A commit running alone: its awaits one after the other. */
  function Alone(x: Env, i: Input, p: Progress, gates: seq<Gate>): Progress
  {
    if gates == [] then p else Advance(x, i, Alone(x, i, p, gates[..|gates| - 1]), gates[|gates| - 1])
  }

  lemma AloneOneMore(x: Env, i: Input, p: Progress, gates: seq<Gate>, gate: Gate)
    ensures Alone(x, i, p, gates + [gate]) == Advance(x, i, Alone(x, i, p, gates), gate)
  {
    assert (gates + [gate])[..|gates|] == gates;
  }

  lemma AloneSix(x: Env, i: Input, p: Progress, g: seq<Gate>)
    requires |g| == 6
    ensures Alone(x, i, p, g)
         == Advance(x, i, Advance(x, i, Advance(x, i, Advance(x, i,
              Advance(x, i, Advance(x, i, p, g[0]), g[1]), g[2]), g[3]), g[4]), g[5])
  {
    forall k | 0 <= k < 6 ensures Alone(x, i, p, g[..k + 1]) == Advance(x, i, Alone(x, i, p, g[..k]), g[k]) {
      AloneOneMore(x, i, p, g[..k], g[k]);
      assert g[..k] + [g[k]] == g[..k + 1];
    }
    assert g[..0] == [] && g[..6] == g;
    assert Alone(x, i, p, g[..1]) == Advance(x, i, p, g[0]);
    assert Alone(x, i, p, g[..2]) == Advance(x, i, Alone(x, i, p, g[..1]), g[1]);
    assert Alone(x, i, p, g[..3]) == Advance(x, i, Alone(x, i, p, g[..2]), g[2]);
  }

  method EqualBytes(left: Bytes, right: Bytes) returns (equal: bool)
    ensures equal <==> left == right
  {
    if |left| != |right| {
      return false;
    }
    for index := 0 to |left|
      invariant left[..index] == right[..index]
    {
      if left[index] != right[index] {
        return false;
      }
    }
    assert left == left[..|left|] && right == right[..|left|];
    return true;
  }

  /** `#validateTemporary` */
  method ValidateTemporary(storage: InMemoryDurableStorage, x: Env, i: Input, expected: Bytes, gate: Gate)
    returns (pc: Pc)
    ensures pc == TemporaryChecked(x, storage.State(), i, expected, gate)
    ensures pc == Renaming <==>
      gate == Ready && StorageKey(i.revision.uri, TempKey(i.revision.id)) in storage.temporarySnapshots &&
      storage.temporarySnapshots[StorageKey(i.revision.uri, TempKey(i.revision.id))] == expected &&
      Identifies(x.decode(expected), i.revision)
    ensures pc != Renaming ==> pc.Done? && pc.reply.Err?
  {
    var temporary := ReadTemporary(storage.State(), gate, i.revision.uri, TempKey(i.revision.id));
    if temporary.Err? {
      return Done(Err(temporary.error));
    }
    var equal := EqualBytes(temporary.value, expected);
    if !equal {
      return Done(Err(Corrupted));
    }
    var decoded := x.decode(temporary.value);
    if decoded.None? || !Identifies(decoded, i.revision) {
      return Done(Err(Corrupted));
    }
    return Renaming;
  }

  /** `#persistSnapshot` after encoding */
  method PersistSnapshot(storage: InMemoryDurableStorage, x: Env, i: Input, encoded: Bytes, g: seq<Gate>)
    returns (pc: Pc)
    requires |g| == 6
    modifies storage
    ensures pc.Done? || pc == ReadingManifest
    ensures Progress(storage.State(), pc)
         == Advance(x, i, Advance(x, i, Advance(x, i, Advance(x, i,
              Progress(old(storage.State()), WritingTemporary(encoded)), g[0]), g[1]), g[2]), g[3])
  {
    var temporaryKey := TempKey(i.revision.id);
    var written := storage.WriteTemporary(g[0], i.fence, temporaryKey, encoded);
    if written.Err? {
      return Done(Err(written.error));
    }
    var synced := storage.FsyncTemporary(g[1], i.fence, temporaryKey);
    if synced.Err? {
      return Done(Err(synced.error));
    }
    pc := ValidateTemporary(storage, x, i, encoded, g[2]);
    if pc.Done? {
      return;
    }
    var renamed := storage.AtomicRename(g[3], i.fence, temporaryKey, SnapKey(i.revision.id));
    pc := if renamed.Err? then Done(Err(renamed.error)) else ReadingManifest;
  }

  /** `#switchManifest` */
  method SwitchManifest(storage: InMemoryDurableStorage, x: Env, i: Input, g: seq<Gate>)
    returns (reply: Result<Manifest, PortError>)
    requires |g| == 6
    modifies storage
    ensures Progress(storage.State(), Done(reply))
         == Advance(x, i, Advance(x, i, Progress(old(storage.State()), ReadingManifest), g[4]), g[5])
  {
    var current := ReadManifest(storage.State(), g[4], i.revision.uri);
    if current.Err? {
      return Err(current.error);
    }
    if current.value.Some? && !Normal(x, current.value.value, i.revision.uri) {
      return Err(Corrupted);
    }
    if !MayAdvance(current.value, i.revision) {
      return Err(GenerationConflict);
    }
    reply := storage.SwitchManifest(g[5], i.fence, Generation(current.value), DraftOf(i.revision));
    if reply.Ok? && !Normal(x, reply.value, i.revision.uri) {
      return Err(Corrupted);
    }
  }

  /** `commit`, with nothing else between its awaits; `g` holds the outcomes of the six waits. */
  method Commit(storage: InMemoryDurableStorage, x: Env, i: Input, g: seq<Gate>)
    returns (reply: Result<Manifest, PortError>)
    requires |g| == 6
    modifies storage
    ensures Progress(storage.State(), Done(reply)) == Alone(x, i, Progress(old(storage.State()), Begun(x, i)), g)
  {
    AloneSix(x, i, Progress(storage.State(), Begun(x, i)), g);
    if !ValidInput(x, i) || x.encode(i.snapshot).None? {
      return Err(Corrupted);
    }
    var pc := PersistSnapshot(storage, x, i, x.encode(i.snapshot).value, g);
    if pc.Done? {
      return pc.reply;
    }
    reply := SwitchManifest(storage, x, i, g);
  }

  /** `readLatest`, with nothing else between its awaits. */
  method ReadLatest(storage: InMemoryDurableStorage, x: Env, uri: JsString, g0: Gate, g1: Gate)
    returns (reply: Result<Option<Base>, PortError>)
    ensures reply == match ReadManifest(storage.State(), g0, uri)
                     case Err(e) => Err(e)
                     case Ok(seen) => LatestRead(x, storage.State(), uri, seen, g1)
    ensures reply == Ok(None) <==> g0 == Ready && uri !in storage.manifests
    ensures forall base :: reply == Ok(Some(base)) <==> g0 == g1 == Ready && IsLatest(storage.State(), x, uri, base)
  {
    var manifest := ReadManifest(storage.State(), g0, uri);
    if manifest.Err? {
      return Err(manifest.error);
    }
    if manifest.value.None? {
      return Ok(None);
    }
    var current := manifest.value.value;
    if !Normal(x, current, uri) {
      return Err(Corrupted);
    }
    var bytes := ReadSnapshot(storage.State(), g1, uri, current.draft.snapshotKey);
    if bytes.Err? {
      return Err(bytes.error);
    }
    if bytes.value.None? {
      return Err(Corrupted);
    }
    var decoded := x.decode(bytes.value.value);
    if decoded.None? || !Identifies(decoded, RevisionOf(current.draft)) {
      return Err(Corrupted);
    }
    return Ok(Some(Base(RevisionOf(current.draft), decoded.value)));
  }
}
