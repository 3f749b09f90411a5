/**
 `recoverDocument` of `src/storage/recovery.ts`: read the recovery base, decode the durable WAL, cut
 off an incomplete tail, and replay.  The answer of `readLatest` and the outcomes of the two storage
 waits are parameters.
 */
module DocumentRecovery {
  import opened Wrappers
  import opened Utf8
  import opened WalRecord
  import opened WalFrames
  import opened WalCodec
  import opened Recovery
  import opened DurableStorage

  datatype Options = Options(
    uri: JsString,
    fence: Fence,
    codec: Codec,
    callbacks: Callbacks,
    latest: Result<Option<Base>, PortError>,
    fallback: Base,
    readGate: Gate,
    truncateGate: Gate)

  datatype Recovered = Recovered(head: Base, appliedRecordCount: nat, truncatedTail: bool, truncatedByteCount: int)

  datatype Outcome = Outcome(store: Store, reply: Result<Recovered, Failure>)

  /** `hasValidLinearRevisionShape` */
  predicate ValidLinearShape(v: Revision)
  {
    v.sequence <= MAX_SAFE_INTEGER &&
    (v.sequence == 0 <==> v.parentRevisionId.None?) &&
    v.parentRevisionId != Some(v.id)
  }

  predicate ValidFallback(uri: JsString, b: Base)
  {
    b.revision.uri == uri && b.snapshot.revisionId == b.revision.id &&
    b.snapshot.documentHash == b.revision.documentHash &&
    b.revision.durability != MemoryLevel && ValidLinearShape(b.revision)
  }

  /** `readRecoveryBase` */
  function RecoveryBase(o: Options): Result<Base, Failure>
  {
    match o.latest
    case Err(reason) => Err(if reason == Corrupted then SnapshotInvalid else StorageReadFailed)
    case Ok(None) => if ValidFallback(o.uri, o.fallback) then Ok(o.fallback) else Err(SnapshotInvalid)
    case Ok(Some(base)) => Ok(base)
  }

  /** `truncateIncompleteTail` */
  function TailTruncated(o: Options, st: Store, length: nat, validByteLength: nat, truncatedTail: bool): Effect<()>
  {
    if !truncatedTail then Effect(st, Ok(()))
    else if validByteLength >= length then Effect(st, Err(Corrupted))
    else Truncated(st, o.truncateGate, o.fence.uri, length, validByteLength)
  }

  function Recovering(o: Options, st: Store): Outcome
  {
    match RecoveryBase(o)
    case Err(e) => Outcome(st, Err(e))
    case Ok(base) =>
      if !o.callbacks.validateSnapshot(base.snapshot) then Outcome(st, Err(SnapshotInvalid))
      else
        var read := DurableRead(st, o.readGate, o.uri);
        match read.reply
        case Err(_) => Outcome(read.store, Err(StorageReadFailed))
        case Ok(bytes) => AfterDecode(o, read.store, base, |bytes|, DecodedWal(o.codec, bytes))
  }

  function AfterDecode(o: Options, st: Store, base: Base, length: nat, decoded: WalResult): Outcome
  {
    match decoded
    case Corrupt(_, offset, _) => Outcome(st, Err(WalCorrupt(offset)))
    case Complete(records, validByteLength, truncatedTail) =>
      var truncated := TailTruncated(o, st, length, validByteLength, truncatedTail);
      if truncated.reply.Err? then Outcome(truncated.store, Err(WalTruncateFailed))
      else
        Outcome(truncated.store, match ReplayAll(o.callbacks, o.uri, base, records)
          case Err(e) => Err(e)
          case Ok(s) => Ok(Recovered(s.head, s.appliedRecordCount, truncatedTail, length - validByteLength)))
  }

  /** The decoding recovery works on. */
  function Decoded(o: Options, st: Store): WalResult { DecodedWal(o.codec, WalOf(st, o.uri).durableBytes) }

  /** Recovery hands out no head whose snapshot was not accepted. */
  lemma RecoveredHeadAccepted(o: Options, st: Store)
    requires Recovering(o, st).reply.Ok?
    ensures o.callbacks.validateSnapshot(Recovering(o, st).reply.value.head.snapshot)
  {
    hide LinearHistory, DecodedWal, TailTruncated;
    var base := RecoveryBase(o).value;
    var decoded := DecodedWal(o.codec, DurableRead(st, o.readGate, o.uri).reply.value);
    var replayed := ReplayAll(o.callbacks, o.uri, base, decoded.records);
    ReplayMeans(o.callbacks, o.uri, base, decoded.records);
    HeadAccepted(o.callbacks, o.uri, base, decoded.records, replayed.value);
  }

  /** Nor one whose revision and snapshot do not belong together, unless it was stored like that. */
  lemma RecoveredHeadBelongsTogether(o: Options, st: Store)
    requires Recovering(o, st).reply.Ok?
    requires o.latest.Ok? && o.latest.value.Some? ==> BelongTogether(o.latest.value.value)
    ensures BelongTogether(Recovering(o, st).reply.value.head)
  {
    hide LinearHistory, DecodedWal, TailTruncated;
    var base := RecoveryBase(o).value;
    var decoded := DecodedWal(o.codec, DurableRead(st, o.readGate, o.uri).reply.value);
    var replayed := ReplayAll(o.callbacks, o.uri, base, decoded.records);
    ReplayMeans(o.callbacks, o.uri, base, decoded.records);
    HeadBelongsTogether(o.callbacks, o.uri, base, decoded.records, replayed.value);
  }

  // ---------------------------------------------------------------- what recovery answers

  /** The base recovery starts from: that of storage, or without one a fallback that agrees with itself. */
  predicate StartsFrom(o: Options, base: Base)
  {
    o.latest == Ok(Some(base)) ||
    (o.latest == Ok(None) && base == o.fallback && base.revision.uri == o.uri &&
     base.snapshot.revisionId == base.revision.id && base.snapshot.documentHash == base.revision.documentHash &&
     base.revision.durability != MemoryLevel && ValidLinearShape(base.revision))
  }

  /** The log can be read and holds these records up to a boundary, where a torn tail can be cut off. */
  predicate HoldsRecords(o: Options, st: Store, records: seq<CommitRecord>, n: nat, torn: bool)
  {
    o.readGate == Ready && Decoded(o, st) == Complete(records, n, torn) &&
    (torn ==> o.truncateGate == Ready && n < |WalOf(st, o.uri).durableBytes|)
  }

  /** Recovery starts from an accepted base, and the records of the log lead from it to the head. */
  ghost predicate HandsOut(o: Options, st: Store, r: Recovered)
  {
    exists base, records, n :: StartsFrom(o, base) && o.callbacks.validateSnapshot(base.snapshot) &&
      HoldsRecords(o, st, records, n, r.truncatedTail) &&
      Recovers(o.callbacks, o.uri, base, records, Success(r.head, r.appliedRecordCount)) &&
      r.truncatedByteCount == |WalOf(st, o.uri).durableBytes| - n
  }

  /** Why there is no base to start from. */
  ghost predicate HasNoBase(o: Options, e: Failure)
  {
    if o.latest == Err(Corrupted) then e == SnapshotInvalid
    else if o.latest.Err? then e == StorageReadFailed
    else e == SnapshotInvalid && forall base :: StartsFrom(o, base) ==> !o.callbacks.validateSnapshot(base.snapshot)
  }

  /** What is wrong with the log as recovery finds it. */
  predicate LogFails(o: Options, st: Store, e: Failure)
  {
    if o.readGate != Ready then e == StorageReadFailed
    else match Decoded(o, st)
      case Corrupt(_, offset, _) => e == WalCorrupt(offset)
      case Complete(_, n, torn) =>
        torn && e == WalTruncateFailed && (o.truncateGate != Ready || n >= |WalOf(st, o.uri).durableBytes|)
  }

  /** The three ways to fail: no accepted base, a log that cannot be used, or records that lead nowhere. */
  ghost predicate GivesUp(o: Options, st: Store, e: Failure)
  {
    HasNoBase(o, e) ||
    exists base :: StartsFrom(o, base) && o.callbacks.validateSnapshot(base.snapshot) &&
      (LogFails(o, st, e) ||
       exists records, n, torn :: HoldsRecords(o, st, records, n, torn) &&
         Refuses(o.callbacks, o.uri, base, records, e))
  }

  lemma StartsFromIff(o: Options, base: Base)
    ensures StartsFrom(o, base) <==> RecoveryBase(o) == Ok(base)
  {
  }

  lemma HasNoBaseIff(o: Options, e: Failure)
    ensures HasNoBase(o, e) <==>
      match RecoveryBase(o)
      case Err(reason) => e == reason
      case Ok(base) => !o.callbacks.validateSnapshot(base.snapshot) && e == SnapshotInvalid
  {
    hide ValidLinearShape;
    forall base { StartsFromIff(o, base); }
    if RecoveryBase(o).Ok? { assert StartsFrom(o, RecoveryBase(o).value); }
  }

  /** With an accepted base, it is the log or its records. */
  lemma LogMeans(o: Options, st: Store, base: Base, r: Recovered, e: Failure)
    requires o.fence.uri == o.uri && RecoveryBase(o) == Ok(base) && o.callbacks.validateSnapshot(base.snapshot)
    ensures Recovering(o, st).reply == Ok(r) <==>
      exists records, n :: HoldsRecords(o, st, records, n, r.truncatedTail) &&
        Recovers(o.callbacks, o.uri, base, records, Success(r.head, r.appliedRecordCount)) &&
        r.truncatedByteCount == |WalOf(st, o.uri).durableBytes| - n
    ensures Recovering(o, st).reply == Err(e) <==>
      LogFails(o, st, e) ||
      exists records, n, torn :: HoldsRecords(o, st, records, n, torn) &&
        Refuses(o.callbacks, o.uri, base, records, e)
  {
    hide Recovers, Refuses, DecodedWal, ReplayAll, RecoveryBase;
    match Decoded(o, st)
    case Corrupt(_, _, _) =>
    case Complete(records, n, torn) =>
      ReplayMeans(o.callbacks, o.uri, base, records);
      assert HoldsRecords(o, st, records, n, torn) || LogFails(o, st, Recovering(o, st).reply.error);
  }

  /** What recovery answers, for any callbacks and any bytes. */
  lemma RecoveryMeans(o: Options, st: Store, r: Recovered, e: Failure)
    requires o.fence.uri == o.uri
    ensures HandsOut(o, st, r) <==> Recovering(o, st).reply == Ok(r)
    ensures GivesUp(o, st, e) <==> Recovering(o, st).reply == Err(e)
  {
    hide Recovers, Refuses, DecodedWal, AfterDecode, RecoveryBase, HoldsRecords, LogFails, HasNoBase, StartsFrom;
    forall base { StartsFromIff(o, base); }
    HasNoBaseIff(o, e);
    if RecoveryBase(o).Ok? && o.callbacks.validateSnapshot(RecoveryBase(o).value.snapshot) {
      LogMeans(o, st, RecoveryBase(o).value, r, e);
      assert StartsFrom(o, RecoveryBase(o).value);
    }
  }

  /** `recoverDocument`, with no other operation between its awaits. */
  method RecoverDocument(storage: InMemoryDurableStorage, o: Options) returns (reply: Result<Recovered, Failure>)
    modifies storage
    ensures Outcome(storage.State(), reply) == Recovering(o, old(storage.State()))
    ensures reply.Ok? ==> o.callbacks.validateSnapshot(reply.value.head.snapshot)
  {
    if Recovering(o, storage.State()).reply.Ok? { RecoveredHeadAccepted(o, storage.State()); }
    var base := RecoveryBase(o);
    if base.Err? {
      return Err(base.error);
    }
    if !o.callbacks.validateSnapshot(base.value.snapshot) {
      return Err(SnapshotInvalid);
    }
    var durableWal := storage.ReadDurable(o.readGate, o.uri);
    if durableWal.Err? {
      return Err(StorageReadFailed);
    }
    var decoded := Decode(FormatOf(o.codec), durableWal.value);
    reply := TruncateAndReplay(storage, o, base.value, |durableWal.value|, decoded);
  }

  method TruncateAndReplay(storage: InMemoryDurableStorage, o: Options, base: Base, length: nat, decoded: WalResult)
    returns (reply: Result<Recovered, Failure>)
    modifies storage
    ensures Outcome(storage.State(), reply) == AfterDecode(o, old(storage.State()), base, length, decoded)
  {
    if decoded.Corrupt? {
      return Err(WalCorrupt(decoded.validByteLength));
    }
    var truncated := TruncateIncompleteTail(storage, o, length, decoded.validByteLength, decoded.truncatedTail);
    if truncated.Err? {
      return Err(WalTruncateFailed);
    }
    var replayed := ReplayRecords(o.callbacks, o.uri, base, decoded.records);
    if replayed.Err? {
      return Err(replayed.error);
    }
    return Ok(Recovered(replayed.value.head, replayed.value.appliedRecordCount,
                        decoded.truncatedTail, length - decoded.validByteLength));
  }

  method TruncateIncompleteTail(storage: InMemoryDurableStorage, o: Options, length: nat, validByteLength: nat,
                                truncatedTail: bool)
    returns (reply: Result<(), PortError>)
    modifies storage
    ensures Effect(storage.State(), reply)
         == TailTruncated(o, old(storage.State()), length, validByteLength, truncatedTail)
  {
    if !truncatedTail {
      return Ok(());
    }
    if validByteLength >= length {
      return Err(Corrupted);
    }
    reply := storage.TruncateDurable(o.truncateGate, o.fence, length, validByteLength);
  }

  // ---------------------------------------------------------------- recovery on arbitrary bytes

  /** The document's own fence and a payload limit that fits the length word. */
  predicate Sane(o: Options) { o.fence.uri == o.uri && o.codec.maxPayload < 0x1_0000_0000 }

  /** Recovery succeeds only on whole records followed by at most a torn tail; it leaves exactly the
      bytes of those records, durable and, if a tail was cut, volatile. */
  lemma RecoveredWal(o: Options, st: Store)
    requires Sane(o) && Recovering(o, st).reply.Ok?
    ensures Decoded(o, st).Complete? && Decoded(o, st).validByteLength <= |WalOf(st, o.uri).durableBytes|
    ensures var kept := WalOf(st, o.uri).durableBytes[..Decoded(o, st).validByteLength];
            Recovering(o, st).store == WithWal(st, o.uri,
              Wal(if Decoded(o, st).truncatedTail then kept else WalOf(st, o.uri).volatileBytes, kept))
    ensures Frames(o.codec, Decoded(o, st).records) == Ok(WalOf(Recovering(o, st).store, o.uri).durableBytes)
    ensures Decoded(o, Recovering(o, st).store) == Decoded(o, st).(truncatedTail := false)
  {
    var bytes := WalOf(st, o.uri).durableBytes;
    DecodeIsLeftInverse(o.codec, bytes);
    CompleteCoversAll(o, bytes);
    StoreAfterDecode(o, st, RecoveryBase(o).value, bytes, Decoded(o, st));
  }

  lemma StoreAfterDecode(o: Options, st: Store, base: Base, bytes: Bytes, decoded: WalResult)
    requires Sane(o) && bytes == WalOf(st, o.uri).durableBytes
    requires AfterDecode(o, DurableRead(st, o.readGate, o.uri).store, base, |bytes|, decoded).reply.Ok?
    requires o.readGate == Ready && decoded.validByteLength <= |bytes|
    requires decoded.Complete? && !decoded.truncatedTail ==> decoded.validByteLength == |bytes|
    ensures decoded.Complete?
    ensures var kept := bytes[..decoded.validByteLength];
            AfterDecode(o, DurableRead(st, o.readGate, o.uri).store, base, |bytes|, decoded).store
            == WithWal(st, o.uri, Wal(if decoded.truncatedTail then kept else WalOf(st, o.uri).volatileBytes, kept))
  {
    var w := WalOf(st, o.uri);
    if decoded.truncatedTail {
      var kept := bytes[..decoded.validByteLength];
      assert WithWal(WithWal(st, o.uri, w), o.uri, Wal(kept, kept)) == WithWal(st, o.uri, Wal(kept, kept));
    } else {
      assert bytes[..decoded.validByteLength] == bytes;
    }
  }

  /** Without a torn tail every byte was read. */
  lemma CompleteCoversAll(o: Options, bytes: Bytes)
    ensures DecodedWal(o.codec, bytes).Complete? && !DecodedWal(o.codec, bytes).truncatedTail ==>
      DecodedWal(o.codec, bytes).validByteLength == |bytes|
  {
    CompleteFromCoversAll(FormatOf(o.codec), bytes, 0, []);
  }

  lemma {:induction false} CompleteFromCoversAll<R, E>(f: Format<R, E>, b: Bytes, offset: nat, records: seq<R>)
    requires offset <= |b|
    ensures var d := DecodeFrom(f, b, offset, records);
            d.Complete? && !d.truncatedTail ==> d.validByteLength == |b|
    decreases |b| - offset
  {
    if offset + HEADER <= |b| {
      var frame := FrameAt(f, b, offset);
      if frame.Whole? {
        CompleteFromCoversAll(f, b, FrameEnd(b, offset), records + [frame.record]);
      }
    }
  }

  /** Recovering again, from whatever bytes the first recovery accepted, gives the same head and
      finds nothing left to cut off. */
  lemma RecoveryIsIdempotent(o: Options, st: Store)
    requires Sane(o) && Recovering(o, st).reply.Ok?
    ensures var first := Recovering(o, st);
            var second := Recovering(o, first.store);
            second.store == first.store &&
            second.reply == Ok(Recovered(first.reply.value.head, first.reply.value.appliedRecordCount, false, 0))
  {
    RecoveredWal(o, st);
    var after, base := Recovering(o, st).store, RecoveryBase(o).value;
    assert WithWal(after, o.uri, WalOf(after, o.uri)) == after;
    SecondDecode(o, st, after, base, |WalOf(st, o.uri).durableBytes|, Decoded(o, st));
  }

  /** Decoding the kept bytes instead gives the same replay and nothing to cut off. */
  lemma SecondDecode(o: Options, st: Store, after: Store, base: Base, length: nat, decoded: WalResult)
    requires decoded.Complete?
    requires AfterDecode(o, DurableRead(st, o.readGate, o.uri).store, base, length, decoded).reply.Ok?
    ensures var first := AfterDecode(o, DurableRead(st, o.readGate, o.uri).store, base, length, decoded).reply.value;
            AfterDecode(o, after, base, decoded.validByteLength, decoded.(truncatedTail := false))
            == Outcome(after, Ok(Recovered(first.head, first.appliedRecordCount, false, 0)))
  {
  }

  // ---------------------------------------------------------------- stale truncations

  /** The compare-and-truncate step compares lengths.  On any store whose durable length is still the
      one that was read, it cuts at the old boundary; it keeps every complete durable record if and
      only if none ends behind that boundary by then. */
  lemma TruncationKeepsRecordsIff(o: Options, st: Store, length: nat, cut: nat)
    requires o.fence.uri == o.uri && TailTruncated(o, st, length, cut, true).reply.Ok?
    ensures |WalOf(st, o.uri).durableBytes| == length && cut < length
    ensures var kept := WalOf(st, o.uri).durableBytes[..cut];
            TailTruncated(o, st, length, cut, true).store == WithWal(st, o.uri, Wal(kept, kept))
    ensures Decoded(o, TailTruncated(o, st, length, cut, true).store).records == Decoded(o, st).records
       <==> Decoded(o, st).validByteLength <= cut
  {
    var w := WalOf(st, o.uri);
    var kept := w.durableBytes[..cut];
    assert WithWal(WithWal(st, o.uri, w), o.uri, Wal(kept, kept)) == WithWal(st, o.uri, Wal(kept, kept));
    CutKeepsRecordsFrom(FormatOf(o.codec), w.durableBytes, cut, 0, []);
  }
}
