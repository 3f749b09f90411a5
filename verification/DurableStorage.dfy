/**
 `InMemoryDurableStorage` of `src/storage/in-memory-durable-storage.ts`: a WAL with a volatile and
 a durable copy, temporary and renamed snapshots, and one manifest per document.

 Every operation of the source first awaits `#before`, which checks the fence and may fail on
 purpose, and then takes effect in one synchronous step.  The outcome of that wait is the parameter
 `gate`; nothing is said about the fence at the moment of the effect.
 */
module DurableStorage {
  import opened Wrappers
  import opened Utf8

  datatype Fence = Fence(uri: JsString, ownerId: JsString, epoch: nat)

  datatype Gate = Ready | StaleFence | IoFault

  datatype PortError = Io | Stale | GenerationConflict | LengthConflict | Corrupted

  /** `SnapshotManifestDraft`; the actor is its canonical JSON text. */
  datatype Draft = Draft(
    uri: JsString,
    revisionId: JsString,
    parentRevisionId: Option<JsString>,
    transactionId: JsString,
    sequence: nat,
    documentHash: JsString,
    actor: JsString,
    createdAt: JsString,
    snapshotKey: JsString)

  datatype Manifest = Manifest(draft: Draft, generation: nat)

  datatype Wal = Wal(volatileBytes: Bytes, durableBytes: Bytes)

  const EMPTY_WAL := Wal([], [])

  /** The contents of one storage object. */
  datatype Store = Store(
    wal: map<JsString, Wal>,
    temporary: map<JsString, Bytes>,
    synced: set<JsString>,
    snapshots: map<JsString, Bytes>,
    manifests: map<JsString, Manifest>)

  const EMPTY_STORE := Store(map[], map[], {}, map[], map[])

  datatype Op =
    | Append(fence: Fence, bytes: Bytes)
    | Fsync(fence: Fence)
    | ReadDurable(uri: JsString)
    | TruncateDurable(fence: Fence, expectedByteLength: nat, byteLength: int)
    | WriteTemporary(fence: Fence, key: JsString, bytes: Bytes)
    | FsyncTemporary(fence: Fence, key: JsString)
    | AtomicRename(fence: Fence, key: JsString, snapshotKey: JsString)
    | SwitchManifest(fence: Fence, expectedGeneration: nat, draft: Draft)
    | Crash

  datatype Effect<T> = Effect(store: Store, reply: Result<T, PortError>)

  // ---------------------------------------------------------------- keys

  function StorageKey(uri: JsString, key: JsString): JsString { uri + [0] + key }

  predicate NulFree(uri: JsString) { forall i :: 0 <= i < |uri| ==> uri[i] != 0 }

  /** Documents never share a storage key: canonical URIs contain no NUL. */
  lemma StorageKeyInjective(uri: JsString, key: JsString, uri': JsString, key': JsString)
    requires NulFree(uri) && NulFree(uri') && StorageKey(uri, key) == StorageKey(uri', key')
    ensures uri == uri' && key == key'
  {
    SeparatorIsUnique(uri, key, uri', key', 0);
  }

  // ---------------------------------------------------------------- what each operation does

  function WalOf(st: Store, uri: JsString): Wal { if uri in st.wal then st.wal[uri] else EMPTY_WAL }

  function GateError(gate: Gate): PortError { if gate == StaleFence then Stale else Io }

  function WithWal(st: Store, uri: JsString, w: Wal): Store { st.(wal := st.wal[uri := w]) }

  function Appended(st: Store, gate: Gate, uri: JsString, bytes: Bytes): Effect<()>
  {
    if gate != Ready then Effect(st, Err(GateError(gate)))
    else
      var w := WalOf(st, uri);
      Effect(WithWal(st, uri, w.(volatileBytes := w.volatileBytes + bytes)), Ok(()))
  }

  function Fsynced(st: Store, gate: Gate, uri: JsString): Effect<()>
  {
    if gate != Ready then Effect(st, Err(GateError(gate)))
    else
      var w := WalOf(st, uri);
      Effect(WithWal(st, uri, w.(durableBytes := w.volatileBytes)), Ok(()))
  }

  /** Reading creates the WAL entry it reads. */
  function DurableRead(st: Store, gate: Gate, uri: JsString): Effect<Bytes>
  {
    if gate != Ready then Effect(st, Err(Io))
    else Effect(WithWal(st, uri, WalOf(st, uri)), Ok(WalOf(st, uri).durableBytes))
  }

  function Truncated(st: Store, gate: Gate, uri: JsString, expectedByteLength: nat, byteLength: int): Effect<()>
  {
    if gate != Ready then Effect(st, Err(GateError(gate)))
    else
      var w := WalOf(st, uri);
      var touched := WithWal(st, uri, w);
      if |w.durableBytes| != expectedByteLength then Effect(touched, Err(LengthConflict))
      else if byteLength < 0 || byteLength > |w.durableBytes| then Effect(touched, Err(Corrupted))
      else
        var kept := w.durableBytes[..byteLength];
        Effect(WithWal(st, uri, Wal(kept, kept)), Ok(()))
  }

  /** A stale synced mark of an earlier temporary with the same key stays. */
  function TemporaryWritten(st: Store, gate: Gate, uri: JsString, key: JsString, bytes: Bytes): Effect<()>
  {
    if gate != Ready then Effect(st, Err(GateError(gate)))
    else Effect(st.(temporary := st.temporary[StorageKey(uri, key) := bytes]), Ok(()))
  }

  function TemporarySynced(st: Store, gate: Gate, uri: JsString, key: JsString): Effect<()>
  {
    if gate != Ready then Effect(st, Err(GateError(gate)))
    else if StorageKey(uri, key) !in st.temporary then Effect(st, Err(Io))
    else Effect(st.(synced := st.synced + {StorageKey(uri, key)}), Ok(()))
  }

  function Renamed(st: Store, gate: Gate, uri: JsString, key: JsString, snapshotKey: JsString): Effect<()>
  {
    if gate != Ready then Effect(st, Err(GateError(gate)))
    else
      var source := StorageKey(uri, key);
      if source !in st.temporary || source !in st.synced then Effect(st, Err(Io))
      else
        Effect(st.(snapshots := st.snapshots[StorageKey(uri, snapshotKey) := st.temporary[source]],
                   temporary := st.temporary - {source},
                   synced := st.synced - {source}), Ok(()))
  }

  function GenerationOf(st: Store, uri: JsString): nat
  {
    if uri in st.manifests then st.manifests[uri].generation else 0
  }

  function ManifestSwitched(st: Store, gate: Gate, uri: JsString, expectedGeneration: nat,
                            draft: Draft): Effect<Manifest>
  {
    if gate != Ready then Effect(st, Err(GateError(gate)))
    else if GenerationOf(st, uri) != expectedGeneration then Effect(st, Err(GenerationConflict))
    else if uri in st.manifests && st.manifests[uri].draft.sequence > draft.sequence then
      Effect(st, Err(GenerationConflict))
    else if StorageKey(uri, draft.snapshotKey) !in st.snapshots then Effect(st, Err(Corrupted))
    else
      var manifest := Manifest(draft, expectedGeneration + 1);
      Effect(st.(manifests := st.manifests[uri := manifest]), Ok(manifest))
  }

  function Crashed(st: Store): Store
  {
    Store(map uri | uri in st.wal :: Wal(st.wal[uri].durableBytes, st.wal[uri].durableBytes),
          map[], {}, st.snapshots, st.manifests)
  }

  function ReadTemporary(st: Store, gate: Gate, uri: JsString, key: JsString): Result<Bytes, PortError>
  {
    if gate != Ready || StorageKey(uri, key) !in st.temporary then Err(Io) else Ok(st.temporary[StorageKey(uri, key)])
  }

  function ReadManifest(st: Store, gate: Gate, uri: JsString): Result<Option<Manifest>, PortError>
  {
    if gate != Ready then Err(Io) else Ok(if uri in st.manifests then Some(st.manifests[uri]) else None)
  }

  function ReadSnapshot(st: Store, gate: Gate, uri: JsString, snapshotKey: JsString): Result<Option<Bytes>, PortError>
  {
    if gate != Ready then Err(Io)
    else
      var key := StorageKey(uri, snapshotKey);
      Ok(if key in st.snapshots then Some(st.snapshots[key]) else None)
  }

  // ---------------------------------------------------------------- what an operation leaves alone

  /** Only the WAL of this document may differ. */
  ghost predicate OnlyWalOf(before: Store, after: Store, uri: JsString)
  {
    (forall other :: other != uri ==> WalOf(after, other) == WalOf(before, other)) &&
    after.temporary == before.temporary && after.synced == before.synced && after.snapshots == before.snapshots &&
    after.manifests == before.manifests
  }

  /** Only what stands under these storage keys may differ. */
  ghost predicate OnlyKeys(before: Store, after: Store, keys: set<JsString>)
  {
    after.wal == before.wal && after.manifests == before.manifests &&
    forall key :: key !in keys ==>
      (key in after.temporary <==> key in before.temporary) &&
      (key in after.temporary ==> after.temporary[key] == before.temporary[key]) &&
      (key in after.synced <==> key in before.synced) &&
      (key in after.snapshots <==> key in before.snapshots) &&
      (key in after.snapshots ==> after.snapshots[key] == before.snapshots[key])
  }

  /** Only the manifest of this document may differ. */
  ghost predicate OnlyManifestOf(before: Store, after: Store, uri: JsString)
  {
    after.wal == before.wal && after.temporary == before.temporary && after.synced == before.synced &&
    after.snapshots == before.snapshots &&
    forall other :: other != uri ==>
      (other in after.manifests <==> other in before.manifests) &&
      (other in after.manifests ==> after.manifests[other] == before.manifests[other])
  }

  /** A wait that fails reports a stale fence or an I/O fault. */
  predicate FailedWait(gate: Gate, e: PortError) { (gate == StaleFence && e == Stale) || (gate == IoFault && e == Io) }

  // ---------------------------------------------------------------- the storage object

  class InMemoryDurableStorage {
    var wal: map<JsString, Wal>
    var temporarySnapshots: map<JsString, Bytes>
    var syncedTemporarySnapshots: set<JsString>
    var snapshots: map<JsString, Bytes>
    var manifests: map<JsString, Manifest>

    function State(): Store
      reads this
    {
      Store(wal, temporarySnapshots, syncedTemporarySnapshots, snapshots, manifests)
    }

    constructor ()
      ensures State() == EMPTY_STORE
    {
      wal, temporarySnapshots, syncedTemporarySnapshots, snapshots, manifests := map[], map[], {}, map[], map[];
    }

    /** `#walState`: creates the entry of a document on first use. */
    method WalState(uri: JsString) returns (w: Wal)
      modifies `wal
      ensures w == WalOf(old(State()), uri) && State() == WithWal(old(State()), uri, w)
    {
      if uri in wal {
        w := wal[uri];
        assert wal[uri := w] == wal;
      } else {
        w := EMPTY_WAL;
        wal := wal[uri := w];
      }
    }

    method Append(gate: Gate, fence: Fence, framedRecord: Bytes) returns (reply: Result<(), PortError>)
      modifies this
      ensures Effect(State(), reply) == Appended(old(State()), gate, fence.uri, framedRecord)
      ensures if reply.Err? then FailedWait(gate, reply.error) && State() == old(State()) else gate == Ready
      ensures reply.Ok? ==> OnlyWalOf(old(State()), State(), fence.uri)
      ensures reply.Ok? ==>
        WalOf(State(), fence.uri).volatileBytes == WalOf(old(State()), fence.uri).volatileBytes + framedRecord &&
        WalOf(State(), fence.uri).durableBytes == WalOf(old(State()), fence.uri).durableBytes
    {
      if gate != Ready {
        return Err(GateError(gate));
      }
      var w := WalState(fence.uri);
      wal := wal[fence.uri := w.(volatileBytes := w.volatileBytes + framedRecord)];
      return Ok(());
    }

    method Fsync(gate: Gate, fence: Fence) returns (reply: Result<(), PortError>)
      modifies this
      ensures Effect(State(), reply) == Fsynced(old(State()), gate, fence.uri)
      ensures if reply.Err? then FailedWait(gate, reply.error) && State() == old(State()) else gate == Ready
      ensures reply.Ok? ==> OnlyWalOf(old(State()), State(), fence.uri)
      ensures reply.Ok? ==>
        WalOf(State(), fence.uri).durableBytes == WalOf(old(State()), fence.uri).volatileBytes &&
        WalOf(State(), fence.uri).volatileBytes == WalOf(old(State()), fence.uri).volatileBytes
    {
      if gate != Ready {
        return Err(GateError(gate));
      }
      var w := WalState(fence.uri);
      wal := wal[fence.uri := w.(durableBytes := w.volatileBytes)];
      return Ok(());
    }

    method ReadDurable(gate: Gate, uri: JsString) returns (reply: Result<Bytes, PortError>)
      modifies this
      ensures Effect(State(), reply) == DurableRead(old(State()), gate, uri)
      ensures reply == if gate == Ready then Ok(WalOf(old(State()), uri).durableBytes) else Err(Io)
      ensures OnlyWalOf(old(State()), State(), uri) && WalOf(State(), uri) == WalOf(old(State()), uri)
    {
      if gate != Ready {
        return Err(Io);
      }
      var w := WalState(uri);
      return Ok(w.durableBytes);
    }

    method TruncateDurable(gate: Gate, fence: Fence, expectedByteLength: nat, byteLength: int)
      returns (reply: Result<(), PortError>)
      modifies this
      ensures Effect(State(), reply) == Truncated(old(State()), gate, fence.uri, expectedByteLength, byteLength)
      ensures OnlyWalOf(old(State()), State(), fence.uri)
      ensures var durable, w := WalOf(old(State()), fence.uri).durableBytes, WalOf(State(), fence.uri);
              if gate != Ready then reply.Err? && FailedWait(gate, reply.error) && State() == old(State())
              else if |durable| != expectedByteLength then reply == Err(LengthConflict)
              else if !(0 <= byteLength <= |durable|) then reply == Err(Corrupted)
              else reply == Ok(()) && w.durableBytes == w.volatileBytes == durable[..byteLength]
      ensures reply.Err? ==> WalOf(State(), fence.uri) == WalOf(old(State()), fence.uri)
    {
      if gate != Ready {
        return Err(GateError(gate));
      }
      var w := WalState(fence.uri);
      if |w.durableBytes| != expectedByteLength {
        return Err(LengthConflict);
      }
      if byteLength < 0 || byteLength > |w.durableBytes| {
        return Err(Corrupted);
      }
      var durableBytes := w.durableBytes[..byteLength];
      wal := wal[fence.uri := Wal(durableBytes, durableBytes)];
      return Ok(());
    }

    method WriteTemporary(gate: Gate, fence: Fence, temporaryKey: JsString, bytes: Bytes)
      returns (reply: Result<(), PortError>)
      modifies this
      ensures Effect(State(), reply) == TemporaryWritten(old(State()), gate, fence.uri, temporaryKey, bytes)
      ensures if reply.Err? then FailedWait(gate, reply.error) && State() == old(State()) else gate == Ready
      ensures OnlyKeys(old(State()), State(), {StorageKey(fence.uri, temporaryKey)})
      ensures reply.Ok? ==>
        ReadTemporary(State(), Ready, fence.uri, temporaryKey) == Ok(bytes) &&
        syncedTemporarySnapshots == old(syncedTemporarySnapshots) && snapshots == old(snapshots)
    {
      if gate != Ready {
        return Err(GateError(gate));
      }
      temporarySnapshots := temporarySnapshots[StorageKey(fence.uri, temporaryKey) := bytes];
      return Ok(());
    }

    method FsyncTemporary(gate: Gate, fence: Fence, temporaryKey: JsString) returns (reply: Result<(), PortError>)
      modifies this
      ensures Effect(State(), reply) == TemporarySynced(old(State()), gate, fence.uri, temporaryKey)
      ensures if gate != Ready then reply.Err? && FailedWait(gate, reply.error)
              else reply == if ReadTemporary(State(), Ready, fence.uri, temporaryKey).Ok? then Ok(()) else Err(Io)
      ensures OnlyKeys(old(State()), State(), {StorageKey(fence.uri, temporaryKey)})
      ensures temporarySnapshots == old(temporarySnapshots) && snapshots == old(snapshots)
      ensures StorageKey(fence.uri, temporaryKey) in syncedTemporarySnapshots
         <==> reply.Ok? || StorageKey(fence.uri, temporaryKey) in old(syncedTemporarySnapshots)
    {
      if gate != Ready {
        return Err(GateError(gate));
      }
      var key := StorageKey(fence.uri, temporaryKey);
      if key !in temporarySnapshots {
        return Err(Io);
      }
      syncedTemporarySnapshots := syncedTemporarySnapshots + {key};
      return Ok(());
    }

    method AtomicRename(gate: Gate, fence: Fence, temporaryKey: JsString, snapshotKey: JsString)
      returns (reply: Result<(), PortError>)
      modifies this
      ensures Effect(State(), reply) == Renamed(old(State()), gate, fence.uri, temporaryKey, snapshotKey)
      ensures var source, target := StorageKey(fence.uri, temporaryKey), StorageKey(fence.uri, snapshotKey);
              if gate != Ready then reply.Err? && FailedWait(gate, reply.error) && State() == old(State())
              else if source !in old(temporarySnapshots) || source !in old(syncedTemporarySnapshots)
              then reply == Err(Io) && State() == old(State())
              else
                reply == Ok(()) && OnlyKeys(old(State()), State(), {source, target}) &&
                ReadSnapshot(State(), Ready, fence.uri, snapshotKey) == Ok(Some(old(temporarySnapshots)[source])) &&
                source !in temporarySnapshots && source !in syncedTemporarySnapshots &&
                temporarySnapshots == old(temporarySnapshots) - {source} &&
                snapshots.Keys == old(snapshots).Keys + {target}
    {
      if gate != Ready {
        return Err(GateError(gate));
      }
      var sourceKey, destinationKey := StorageKey(fence.uri, temporaryKey), StorageKey(fence.uri, snapshotKey);
      if sourceKey !in temporarySnapshots || sourceKey !in syncedTemporarySnapshots {
        return Err(Io);
      }
      snapshots := snapshots[destinationKey := temporarySnapshots[sourceKey]];
      temporarySnapshots := temporarySnapshots - {sourceKey};
      syncedTemporarySnapshots := syncedTemporarySnapshots - {sourceKey};
      return Ok(());
    }

    method SwitchManifest(gate: Gate, fence: Fence, expectedGeneration: nat, draft: Draft)
      returns (reply: Result<Manifest, PortError>)
      modifies this
      ensures Effect(State(), reply) == ManifestSwitched(old(State()), gate, fence.uri, expectedGeneration, draft)
      ensures var current := ReadManifest(old(State()), Ready, fence.uri).value;
              if gate != Ready then reply.Err? && FailedWait(gate, reply.error)
              else if expectedGeneration != (if current.None? then 0 else current.value.generation)
              then reply == Err(GenerationConflict)
              else if current.Some? && current.value.draft.sequence > draft.sequence
              then reply == Err(GenerationConflict)
              else if ReadSnapshot(old(State()), Ready, fence.uri, draft.snapshotKey) == Ok(None)
              then reply == Err(Corrupted)
              else reply == Ok(Manifest(draft, expectedGeneration + 1))
      ensures reply.Ok? ==> ReadManifest(State(), Ready, fence.uri) == Ok(Some(reply.value))
      ensures OnlyManifestOf(old(State()), State(), fence.uri) && (reply.Err? ==> State() == old(State()))
    {
      if gate != Ready {
        return Err(GateError(gate));
      }
      var generation := if fence.uri in manifests then manifests[fence.uri].generation else 0;
      if generation != expectedGeneration {
        return Err(GenerationConflict);
      }
      if fence.uri in manifests && manifests[fence.uri].draft.sequence > draft.sequence {
        return Err(GenerationConflict);
      }
      if StorageKey(fence.uri, draft.snapshotKey) !in snapshots {
        return Err(Corrupted);
      }
      var manifest := Manifest(draft, expectedGeneration + 1);
      manifests := manifests[fence.uri := manifest];
      return Ok(manifest);
    }

    /** `crash`: one pass over the WAL entries; temporaries and their marks are gone. */
    method Crash()
      modifies this
      ensures State() == Crashed(old(State()))
      ensures forall uri :: WalOf(State(), uri).volatileBytes == WalOf(State(), uri).durableBytes
                         == WalOf(old(State()), uri).durableBytes
      ensures temporarySnapshots == map[] && syncedTemporarySnapshots == {}
      ensures snapshots == old(snapshots) && manifests == old(manifests)
    {
      var left := wal.Keys;
      ghost var before := wal;
      while left != {}
        invariant left <= before.Keys == wal.Keys
        invariant forall uri :: uri in before ==>
          wal[uri] == if uri in left then before[uri] else Wal(before[uri].durableBytes, before[uri].durableBytes)
        invariant temporarySnapshots == old(temporarySnapshots) &&
                  syncedTemporarySnapshots == old(syncedTemporarySnapshots)
        invariant snapshots == old(snapshots) && manifests == old(manifests)
        decreases left
      {
        var uri :| uri in left;
        wal := wal[uri := wal[uri].(volatileBytes := wal[uri].durableBytes)];
        left := left - {uri};
      }
      temporarySnapshots := map[];
      syncedTemporarySnapshots := {};
    }

    /** `seedDurableWal` */
    method SeedDurableWal(uri: JsString, bytes: Bytes)
      modifies this
      ensures State() == WithWal(old(State()), uri, Wal(bytes, bytes))
    {
      wal := wal[uri := Wal(bytes, bytes)];
    }

    /** `corruptDurableWal`: the byte at the offset becomes `replacement`; outside the durable bytes no
        byte changes. */
    method CorruptDurableWal(uri: JsString, byteOffset: int, replacement: Byte) returns (done: bool)
      modifies this
      ensures done <==> 0 <= byteOffset < |WalOf(old(State()), uri).durableBytes|
      ensures !done ==> State() == WithWal(old(State()), uri, WalOf(old(State()), uri))
      ensures done ==>
        var damaged := WalOf(old(State()), uri).durableBytes[byteOffset := replacement];
        State() == WithWal(old(State()), uri, Wal(damaged, damaged))
    {
      var w := WalState(uri);
      if byteOffset < 0 || byteOffset >= |w.durableBytes| {
        return false;
      }
      var corrupted := w.durableBytes[byteOffset := replacement];
      wal := wal[uri := Wal(corrupted, corrupted)];
      return true;
    }
  }

  // ---------------------------------------------------------------- every run

  function Step(st: Store, gate: Gate, op: Op): Store
  {
    match op
    case Append(fence, bytes) => Appended(st, gate, fence.uri, bytes).store
    case Fsync(fence) => Fsynced(st, gate, fence.uri).store
    case ReadDurable(uri) => DurableRead(st, gate, uri).store
    case TruncateDurable(fence, expected, length) => Truncated(st, gate, fence.uri, expected, length).store
    case WriteTemporary(fence, key, bytes) => TemporaryWritten(st, gate, fence.uri, key, bytes).store
    case FsyncTemporary(fence, key) => TemporarySynced(st, gate, fence.uri, key).store
    case AtomicRename(fence, key, snapshotKey) => Renamed(st, gate, fence.uri, key, snapshotKey).store
    case SwitchManifest(fence, expected, draft) => ManifestSwitched(st, gate, fence.uri, expected, draft).store
    case Crash => Crashed(st)
  }

  datatype Event = Event(gate: Gate, op: Op)

  function Run(st: Store, events: seq<Event>): Store
  {
    if events == [] then st
    else
      var last := events[|events| - 1];
      Step(Run(st, events[..|events| - 1]), last.gate, last.op)
  }

  /** What every run keeps: the durable WAL is a prefix of the volatile one, a synced mark belongs
      to a temporary, and a manifest refers to a snapshot that exists. */
  ghost predicate Coherent(st: Store)
  {
    (forall uri :: uri in st.wal ==> st.wal[uri].durableBytes <= st.wal[uri].volatileBytes) &&
    st.synced <= st.temporary.Keys &&
    forall uri :: uri in st.manifests ==>
      st.manifests[uri].generation > 0 && StorageKey(uri, st.manifests[uri].draft.snapshotKey) in st.snapshots
  }

  lemma StepKeepsCoherent(st: Store, gate: Gate, op: Op)
    requires Coherent(st)
    ensures Coherent(Step(st, gate, op))
  {
    match op
    case Append(_, _) | Fsync(_) | ReadDurable(_) | TruncateDurable(_, _, _) => WalStepKeepsCoherent(st, gate, op);
    case AtomicRename(_, _, _) => RenameKeepsCoherent(st, gate, op);
    case _ =>
  }

  lemma WalStepKeepsCoherent(st: Store, gate: Gate, op: Op)
    requires Coherent(st) && (op.Append? || op.Fsync? || op.ReadDurable? || op.TruncateDurable?)
    ensures Coherent(Step(st, gate, op))
  {
    var uri := if op.ReadDurable? then op.uri else op.fence.uri;
    var next := Step(st, gate, op);
    assert WalOf(st, uri).durableBytes <= WalOf(st, uri).volatileBytes;
    if next != st {
      var w := next.wal[uri];
      WalUpdateKeepsCoherent(st, uri, w);
      assert next == WithWal(st, uri, w);
    }
  }

  lemma WalUpdateKeepsCoherent(st: Store, uri: JsString, w: Wal)
    requires Coherent(st) && w.durableBytes <= w.volatileBytes
    ensures Coherent(WithWal(st, uri, w))
  {
  }

  lemma RenameKeepsCoherent(st: Store, gate: Gate, op: Op)
    requires Coherent(st) && op.AtomicRename?
    ensures Coherent(Step(st, gate, op))
  {
  }

  lemma {:induction false} RunsStayCoherent(events: seq<Event>)
    ensures Coherent(Run(EMPTY_STORE, events))
  {
    if events != [] {
      var last := events[|events| - 1];
      RunsStayCoherent(events[..|events| - 1]);
      StepKeepsCoherent(Run(EMPTY_STORE, events[..|events| - 1]), last.gate, last.op);
    }
  }

  /** A generation only ever counts the successful switches of its document. */
  lemma {:induction false} GenerationCountsSwitches(uri: JsString, events: seq<Event>)
    ensures GenerationOf(Run(EMPTY_STORE, events), uri) == Switches(uri, events)
  {
    if events != [] {
      var last := events[|events| - 1];
      GenerationCountsSwitches(uri, events[..|events| - 1]);
      GenerationAfter(Run(EMPTY_STORE, events[..|events| - 1]), uri, last);
    }
  }

  predicate SwitchesManifest(st: Store, uri: JsString, event: Event)
  {
    event.op.SwitchManifest? && event.op.fence.uri == uri &&
    ManifestSwitched(st, event.gate, uri, event.op.expectedGeneration, event.op.draft).reply.Ok?
  }

  function Switches(uri: JsString, events: seq<Event>): nat
  {
    if events == [] then 0
    else
      var front, last := events[..|events| - 1], events[|events| - 1];
      Switches(uri, front) + if SwitchesManifest(Run(EMPTY_STORE, front), uri, last) then 1 else 0
  }

  lemma GenerationAfter(st: Store, uri: JsString, event: Event)
    ensures GenerationOf(Step(st, event.gate, event.op), uri)
         == GenerationOf(st, uri) + if SwitchesManifest(st, uri, event) then 1 else 0
  {
  }
}
