/**
 `src/storage/recovery.ts`: the history check and the replay of WAL records on top of a
 recovery base.  Validation and replay are parameters, as they are in the source.
 */
module Recovery {
  import opened Wrappers
  import opened Utf8
  import opened WalRecord

  datatype Durability = MemoryLevel | WalLevel | SnapshotLevel

  datatype Revision = Revision(
    id: JsString,
    uri: JsString,
    parentRevisionId: Option<JsString>,
    transactionId: JsString,
    sequence: nat,
    documentHash: JsString,
    actor: JsString,
    createdAt: JsString,
    durability: Durability)

  /** A document snapshot; `content` stands for everything but its identity. */
  datatype Snapshot = Snapshot(revisionId: JsString, documentHash: JsString, content: JsString)

  datatype Base = Base(revision: Revision, snapshot: Snapshot)

  datatype Callbacks = Callbacks(
    validateRecord: CommitRecord -> bool,
    validateSnapshot: Snapshot -> bool,
    replay: (Snapshot, Revision, CommitRecord) -> Option<Base>)

  datatype Failure =
    | StorageReadFailed | SnapshotInvalid | WalCorrupt(offset: nat) | WalTruncateFailed
    | RecordInvalid | HistoryDiscontinuous | ReplayFailed | DocumentHashMismatch

  datatype Success = Success(head: Base, appliedRecordCount: nat)

  // ---------------------------------------------------------------- one record against a revision

  /** `walRecordMatchesRevision` */
  predicate Matches(r: CommitRecord, v: Revision)
  {
    r.uri == v.uri && r.revisionId == v.id && r.parentRevisionId == v.parentRevisionId &&
    r.transactionId == v.transactionId && r.sequence == v.sequence && r.documentHash == v.documentHash
  }

  /** `validateContinuity` */
  predicate Continues(uri: JsString, v: Revision, r: CommitRecord)
  {
    r.uri == uri && r.parentRevisionId == Some(v.id) && r.sequence == v.sequence + 1
  }

  predicate IsBaseRecord(base: Base, r: CommitRecord)
  {
    r.sequence == base.revision.sequence && Matches(r, base.revision)
  }

  // ---------------------------------------------------------------- the history of a log

  /** Consecutive sequence numbers, exact parents, one document. */
  predicate Chained(uri: JsString, rs: seq<CommitRecord>)
  {
    (forall i :: 0 <= i < |rs| ==> rs[i].uri == uri) &&
    forall i :: 0 < i < |rs| ==> Succeeds(rs[i - 1], rs[i])
  }

  predicate Succeeds(previous: CommitRecord, record: CommitRecord)
  {
    record.sequence == previous.sequence + 1 && record.parentRevisionId == Some(previous.revisionId)
  }

  /** No revision or transaction id occurs twice, counting the base and its own record once. */
  predicate IdsDistinct(base: Base, rs: seq<CommitRecord>)
  {
    (forall i, j :: 0 <= i < j < |rs| ==>
      rs[i].revisionId != rs[j].revisionId && rs[i].transactionId != rs[j].transactionId) &&
    forall i :: 0 <= i < |rs| && !IsBaseRecord(base, rs[i]) ==>
      rs[i].revisionId != base.revision.id && rs[i].transactionId != base.revision.transactionId
  }

  /** The record at the base's sequence is the base, the one before it is its parent. */
  predicate AgreesAtBase(base: Base, rs: seq<CommitRecord>)
  {
    (forall i :: 0 <= i < |rs| && rs[i].sequence == base.revision.sequence ==> Matches(rs[i], base.revision)) &&
    forall i :: 0 <= i < |rs| && rs[i].sequence + 1 == base.revision.sequence ==>
      base.revision.parentRevisionId == Some(rs[i].revisionId)
  }

  predicate LinearHistory(uri: JsString, base: Base, rs: seq<CommitRecord>)
  {
    Chained(uri, rs) && IdsDistinct(base, rs) && AgreesAtBase(base, rs)
  }

  /** The state of `validateWalStream` after `n` records: the ids met so far, the base's included. */
  ghost predicate Seen(base: Base, rs: seq<CommitRecord>, n: nat, revisionIds: set<JsString>,
                       transactionIds: set<JsString>, matchedBaseRecord: bool)
    requires n <= |rs|
  {
    base.revision.id in revisionIds && base.revision.transactionId in transactionIds &&
    (forall j {:trigger rs[j].revisionId in revisionIds} :: 0 <= j < n ==> rs[j].revisionId in revisionIds) &&
    (forall j {:trigger rs[j].transactionId in transactionIds} :: 0 <= j < n ==>
      rs[j].transactionId in transactionIds) &&
    (forall x :: x in revisionIds ==> x == base.revision.id || exists j :: 0 <= j < n && rs[j].revisionId == x) &&
    (forall x :: x in transactionIds ==>
      x == base.revision.transactionId || exists j :: 0 <= j < n && rs[j].transactionId == x) &&
    (matchedBaseRecord <==> exists j :: 0 <= j < n && IsBaseRecord(base, rs[j]))
  }

  /** `validateWalRevisionIdentity` */
  method ValidateIdentity(uri: JsString, base: Base, rs: seq<CommitRecord>, i: nat, revisionIds: set<JsString>,
                          transactionIds: set<JsString>, matchedBaseRecord: bool)
    returns (ok: bool, revisionIds': set<JsString>, transactionIds': set<JsString>, matchedBaseRecord': bool)
    requires i < |rs| && Seen(base, rs, i, revisionIds, transactionIds, matchedBaseRecord)
    requires LinearUpTo(uri, base, rs, i)
    ensures ok ==> Seen(base, rs, i + 1, revisionIds', transactionIds', matchedBaseRecord') && Fresh(base, rs, i)
    ensures !ok ==> !IdsDistinct(base, rs)
  {
    var record := rs[i];
    revisionIds', transactionIds', matchedBaseRecord' := revisionIds, transactionIds, matchedBaseRecord;
    if IsBaseRecord(base, record) && !matchedBaseRecord {
      matchedBaseRecord' := true;
      FirstBaseRecord(base, rs, i);
      return true, revisionIds', transactionIds', matchedBaseRecord';
    }
    if record.transactionId in transactionIds {
      return false, revisionIds', transactionIds', matchedBaseRecord';
    }
    transactionIds' := transactionIds + {record.transactionId};
    if record.revisionId in revisionIds {
      return false, revisionIds', transactionIds', matchedBaseRecord';
    }
    revisionIds' := revisionIds + {record.revisionId};
    ok := true;
  }

  /** The `i`th record repeats no id of the base or of an earlier record. */
  ghost predicate Fresh(base: Base, rs: seq<CommitRecord>, i: nat)
    requires i < |rs|
  {
    (IsBaseRecord(base, rs[i]) ||
      (rs[i].revisionId != base.revision.id && rs[i].transactionId != base.revision.transactionId)) &&
    forall j :: 0 <= j < i ==>
      rs[j].revisionId != rs[i].revisionId && rs[j].transactionId != rs[i].transactionId
  }

  /** What `validateWalStream` knows after `n` records. */
  ghost predicate LinearUpTo(uri: JsString, base: Base, rs: seq<CommitRecord>, n: nat)
    requires n <= |rs|
  {
    (forall j :: 0 <= j < n ==> Fresh(base, rs, j)) &&
    (forall j :: 0 <= j < n ==> rs[j].uri == uri) &&
    forall j :: 0 < j < n ==> Succeeds(rs[j - 1], rs[j])
  }

  lemma LinearStep(uri: JsString, base: Base, rs: seq<CommitRecord>, n: nat)
    requires n < |rs| && LinearUpTo(uri, base, rs, n)
    requires Fresh(base, rs, n) && rs[n].uri == uri && (n > 0 ==> Succeeds(rs[n - 1], rs[n]))
    ensures LinearUpTo(uri, base, rs, n + 1)
  {
  }

  lemma ChainBroken(uri: JsString, rs: seq<CommitRecord>, n: nat)
    requires n < |rs| && (rs[n].uri != uri || (n > 0 && !Succeeds(rs[n - 1], rs[n])))
    ensures !Chained(uri, rs)
  {
  }

  /** `validateWalStream`: one pass with two growing id sets, then the boundary lookups. */
  method ValidateWalStream(uri: JsString, base: Base, rs: seq<CommitRecord>) returns (ok: bool)
    ensures ok <==> LinearHistory(uri, base, rs)
  {
    var revisionIds, transactionIds := {base.revision.id}, {base.revision.transactionId};
    var matchedBaseRecord := false;
    for i := 0 to |rs|
      invariant Seen(base, rs, i, revisionIds, transactionIds, matchedBaseRecord)
      invariant LinearUpTo(uri, base, rs, i)
    {
      if rs[i].uri != uri {
        ChainBroken(uri, rs, i);
        return false;
      }
      ok, revisionIds, transactionIds, matchedBaseRecord :=
        ValidateIdentity(uri, base, rs, i, revisionIds, transactionIds, matchedBaseRecord);
      if !ok {
        return false;
      }
      if i > 0 && !Succeeds(rs[i - 1], rs[i]) {
        ChainBroken(uri, rs, i);
        return false;
      }
      LinearStep(uri, base, rs, i);
    }
    AllFresh(uri, base, rs);
    ok := ValidateBaseWalBoundary(base, rs);
  }

  lemma FirstBaseRecord(base: Base, rs: seq<CommitRecord>, i: nat)
    requires i < |rs| && IsBaseRecord(base, rs[i])
    requires forall j :: 0 <= j < i ==> Fresh(base, rs, j) && !IsBaseRecord(base, rs[j])
    ensures Fresh(base, rs, i)
  {
  }

  lemma AllFresh(uri: JsString, base: Base, rs: seq<CommitRecord>)
    requires LinearUpTo(uri, base, rs, |rs|)
    ensures Chained(uri, rs) && IdsDistinct(base, rs) && Consecutive(rs)
  {
    forall i, j | 0 <= i < j < |rs|
      ensures rs[i].revisionId != rs[j].revisionId && rs[i].transactionId != rs[j].transactionId
    {
      assert Fresh(base, rs, j);
    }
    forall i | 0 <= i < |rs| && !IsBaseRecord(base, rs[i])
      ensures rs[i].revisionId != base.revision.id && rs[i].transactionId != base.revision.transactionId
    {
      assert Fresh(base, rs, i);
    }
    forall i | 0 < i < |rs| ensures rs[i].sequence == rs[i - 1].sequence + 1 {
      assert Succeeds(rs[i - 1], rs[i]);
    }
  }

  /** `validateBaseWalBoundary`: `records.find` by sequence number. */
  method ValidateBaseWalBoundary(base: Base, rs: seq<CommitRecord>) returns (ok: bool)
    requires Consecutive(rs)
    ensures ok <==> AgreesAtBase(base, rs)
  {
    var baseRecord := FindSequence(rs, base.revision.sequence);
    if baseRecord.Some? && !Matches(rs[baseRecord.value], base.revision) {
      return false;
    }
    if baseRecord.Some? {
      SameSequenceSameIndex(rs, baseRecord.value);
    }
    if base.revision.sequence == 0 {
      return true;
    }
    var parentRecord := FindSequence(rs, base.revision.sequence - 1);
    if parentRecord.Some? {
      SameSequenceSameIndex(rs, parentRecord.value);
    }
    return parentRecord.None? || base.revision.parentRevisionId == Some(rs[parentRecord.value].revisionId);
  }

  predicate Consecutive(rs: seq<CommitRecord>)
  {
    forall i :: 0 < i < |rs| ==> rs[i].sequence == rs[i - 1].sequence + 1
  }

  lemma SameSequenceSameIndex(rs: seq<CommitRecord>, i: nat)
    requires i < |rs| && Consecutive(rs)
    ensures forall j :: 0 <= j < |rs| && rs[j].sequence == rs[i].sequence ==> j == i
  {
    ConsecutiveSequences(rs);
  }

  method FindSequence(rs: seq<CommitRecord>, sequence: nat) returns (found: Option<nat>)
    ensures found.Some? ==> found.value < |rs| && rs[found.value].sequence == sequence
    ensures found.None? ==> forall i :: 0 <= i < |rs| ==> rs[i].sequence != sequence
  {
    for i := 0 to |rs|
      invariant forall j :: 0 <= j < i ==> rs[j].sequence != sequence
    {
      if rs[i].sequence == sequence {
        return Some(i);
      }
    }
    return None;
  }

  lemma {:induction false} ConsecutiveSequences(rs: seq<CommitRecord>)
    requires Consecutive(rs)
    ensures forall i :: 0 <= i < |rs| ==> rs[i].sequence == rs[0].sequence + i
  {
    if |rs| > 1 {
      var front := rs[..|rs| - 1];
      assert Consecutive(front) by {
        forall i | 0 < i < |front| ensures front[i].sequence == front[i - 1].sequence + 1 {
          assert rs[i].sequence == rs[i - 1].sequence + 1;
        }
      }
      ConsecutiveSequences(front);
      var last := |rs| - 1;
      assert rs[last].sequence == rs[last - 1].sequence + 1 && front[last - 1] == rs[last - 1];
      assert forall i :: 0 <= i < last ==> front[i] == rs[i];
    }
  }

  // ---------------------------------------------------------------- replay

  /** The loop of `replayRecords` from one record on. */
  function Replay(cb: Callbacks, uri: JsString, at: Success, rs: seq<CommitRecord>): Result<Success, Failure>
    decreases |rs|
  {
    if rs == [] then Ok(at)
    else match ReplayOne(cb, uri, at, rs[0])
      case Err(e) => Err(e)
      case Ok(next) => Replay(cb, uri, next, rs[1..])
  }

  function ReplayOne(cb: Callbacks, uri: JsString, at: Success, r: CommitRecord): Result<Success, Failure>
  {
    if !cb.validateRecord(r) then Err(RecordInvalid)
    else if r.sequence <= at.head.revision.sequence then Ok(at)
    else if !Continues(uri, at.head.revision, r) then Err(HistoryDiscontinuous)
    else match cb.replay(at.head.snapshot, at.head.revision, r)
      case None => Err(ReplayFailed)
      case Some(next) =>
        if !Replayed(next, r) then Err(DocumentHashMismatch)
        else if !cb.validateSnapshot(next.snapshot) then Err(SnapshotInvalid)
        else Ok(Success(next, at.appliedRecordCount + 1))
  }

  /** The replay output carries the identity and hash the record announced. */
  predicate Replayed(next: Base, r: CommitRecord)
  {
    Matches(r, next.revision) && next.revision.durability == WalLevel &&
    next.snapshot.revisionId == next.revision.id && next.snapshot.documentHash == next.revision.documentHash
  }

  function ReplayAll(cb: Callbacks, uri: JsString, base: Base, rs: seq<CommitRecord>): Result<Success, Failure>
  {
    if LinearHistory(uri, base, rs) then Replay(cb, uri, Success(base, 0), rs) else Err(HistoryDiscontinuous)
  }

  // ---------------------------------------------------------------- what replay means

  /** The records above a sequence number, in order. */
  function LaterRecords(sequence: nat, rs: seq<CommitRecord>): seq<CommitRecord>
  {
    if rs == [] then []
    else (if rs[0].sequence > sequence then [rs[0]] else []) + LaterRecords(sequence, rs[1..])
  }

  /** The record goes on from this state. */
  predicate GoesOn(uri: JsString, at: Base, r: CommitRecord)
  {
    r.uri == uri && r.parentRevisionId == Some(at.revision.id) && r.sequence == at.revision.sequence + 1
  }

  /** The state has the identity, the parent and the hash of the record, at the level of the log. */
  predicate Carries(to: Base, r: CommitRecord)
  {
    to.revision.uri == r.uri && to.revision.id == r.revisionId && to.revision.parentRevisionId == r.parentRevisionId &&
    to.revision.transactionId == r.transactionId && to.revision.sequence == r.sequence &&
    to.revision.documentHash == r.documentHash && to.revision.durability == WalLevel &&
    to.snapshot.revisionId == r.revisionId && to.snapshot.documentHash == r.documentHash
  }

  /** One applied record: it goes on from the state before it, and what the callback makes of it carries
      its identity and is accepted. */
  predicate Steps(cb: Callbacks, uri: JsString, at: Base, r: CommitRecord, to: Base)
  {
    GoesOn(uri, at, r) && cb.replay(at.snapshot, at.revision, r) == Some(to) && Carries(to, r) &&
    cb.validateSnapshot(to.snapshot)
  }

  /** One more state than records, each a step after the one before it. */
  ghost predicate Chain(cb: Callbacks, uri: JsString, bases: seq<Base>, rs: seq<CommitRecord>)
  {
    |bases| == |rs| + 1 && forall i :: 0 <= i < |rs| ==> Steps(cb, uri, bases[i], rs[i], bases[i + 1])
  }

  ghost predicate Connects(cb: Callbacks, uri: JsString, at: Base, rs: seq<CommitRecord>, to: Base, bases: seq<Base>)
  {
    Chain(cb, uri, bases, rs) && bases[0] == at && bases[|rs|] == to
  }

  /** All records are valid, and a chain over those above the first state connects the two states. */
  ghost predicate LeadsTo(cb: Callbacks, uri: JsString, at: Success, rs: seq<CommitRecord>, s: Success)
  {
    var later := LaterRecords(at.head.revision.sequence, rs);
    (forall i :: 0 <= i < |rs| ==> cb.validateRecord(rs[i])) &&
    s.appliedRecordCount == at.appliedRecordCount + |later| &&
    exists bases :: Connects(cb, uri, at.head, later, s.head, bases)
  }

  /** What is wrong with a record after this state, the first thing first. */
  predicate IsFault(cb: Callbacks, uri: JsString, at: Base, r: CommitRecord, e: Failure)
  {
    if !cb.validateRecord(r) then e == RecordInvalid
    else
      r.sequence > at.revision.sequence &&
      if !GoesOn(uri, at, r) then e == HistoryDiscontinuous
      else
        var next := cb.replay(at.snapshot, at.revision, r);
        if next.None? then e == ReplayFailed
        else if !Carries(next.value, r) then e == DocumentHashMismatch
        else !cb.validateSnapshot(next.value.snapshot) && e == SnapshotInvalid
  }

  /** The records before the `n`th lead to a state after which the `n`th has this fault. */
  ghost predicate FailsAt(cb: Callbacks, uri: JsString, at: Success, rs: seq<CommitRecord>, n: nat, e: Failure)
  {
    n < |rs| && exists mid :: LeadsTo(cb, uri, at, rs[..n], mid) && IsFault(cb, uri, mid.head, rs[n], e)
  }

  /** The only way to succeed: a linear history that leads to this state. */
  ghost predicate Recovers(cb: Callbacks, uri: JsString, base: Base, rs: seq<CommitRecord>, s: Success)
  {
    LinearHistory(uri, base, rs) && LeadsTo(cb, uri, Success(base, 0), rs, s)
  }

  /** The ways to fail: a history that is not linear, or a first record with a fault. */
  ghost predicate Refuses(cb: Callbacks, uri: JsString, base: Base, rs: seq<CommitRecord>, e: Failure)
  {
    if LinearHistory(uri, base, rs) then exists n: nat :: FailsAt(cb, uri, Success(base, 0), rs, n, e)
    else e == HistoryDiscontinuous
  }

  lemma {:induction false} AllLater(sequence: nat, rs: seq<CommitRecord>)
    requires forall i :: 0 <= i < |rs| ==> rs[i].sequence > sequence
    ensures LaterRecords(sequence, rs) == rs
  {
    if rs != [] { AllLater(sequence, rs[1..]); }
  }

  lemma ConsecutiveTail(rs: seq<CommitRecord>)
    requires Consecutive(rs) && rs != []
    ensures Consecutive(rs[1..]) && forall i :: 0 <= i < |rs[1..]| ==> rs[1..][i].sequence == rs[0].sequence + 1 + i
  {
    ConsecutiveSequences(rs);
  }

  lemma OneReplayed(cb: Callbacks, uri: JsString, at: Success, r: CommitRecord)
    ensures forall e :: IsFault(cb, uri, at.head, r, e) <==> ReplayOne(cb, uri, at, r) == Err(e)
    ensures r.sequence <= at.head.revision.sequence ==>
      (ReplayOne(cb, uri, at, r) == Ok(at) <==> cb.validateRecord(r)) &&
      (ReplayOne(cb, uri, at, r).Ok? ==> ReplayOne(cb, uri, at, r) == Ok(at))
    ensures r.sequence > at.head.revision.sequence && ReplayOne(cb, uri, at, r).Ok? ==>
      var next := ReplayOne(cb, uri, at, r).value;
      cb.validateRecord(r) && Steps(cb, uri, at.head, r, next.head) &&
      next.appliedRecordCount == at.appliedRecordCount + 1 && next.head.revision.sequence == r.sequence
    ensures forall to :: Steps(cb, uri, at.head, r, to) ==>
      r.sequence > at.head.revision.sequence &&
      (cb.validateRecord(r) ==> ReplayOne(cb, uri, at, r) == Ok(Success(to, at.appliedRecordCount + 1)))
  {
  }

  lemma ConnectsFront(cb: Callbacks, uri: JsString, at: Base, r: CommitRecord, rest: seq<CommitRecord>, to: Base,
                      bases: seq<Base>)
    requires bases != []
    ensures Connects(cb, uri, at, [r] + rest, to, [at] + bases) <==>
      Steps(cb, uri, at, r, bases[0]) && Connects(cb, uri, bases[0], rest, to, bases)
  {
    hide Steps;
    var all, longer := [r] + rest, [at] + bases;
    if Connects(cb, uri, at, all, to, longer) {
      assert Steps(cb, uri, longer[0], all[0], longer[1]);
      forall i | 0 <= i < |rest| ensures Steps(cb, uri, bases[i], rest[i], bases[i + 1]) {
        assert Steps(cb, uri, longer[i + 1], all[i + 1], longer[i + 2]);
      }
    }
    if Steps(cb, uri, at, r, bases[0]) && Connects(cb, uri, bases[0], rest, to, bases) {
      forall i | 0 <= i < |all| ensures Steps(cb, uri, longer[i], all[i], longer[i + 1]) {
        if i > 0 { assert Steps(cb, uri, bases[i - 1], rest[i - 1], bases[i]); }
      }
    }
  }

  /** The records above the state after the first one are those above the state before it, without it. */
  lemma LaterAfterFirst(at: nat, rs: seq<CommitRecord>)
    requires Consecutive(rs) && rs != []
    ensures LaterRecords(at, rs)
         == if rs[0].sequence <= at then LaterRecords(at, rs[1..])
            else [rs[0]] + LaterRecords(rs[0].sequence, rs[1..])
  {
    ConsecutiveTail(rs);
    if rs[0].sequence > at {
      AllLater(at, rs[1..]);
      AllLater(rs[0].sequence, rs[1..]);
    }
  }

  /** From the first record on. */
  lemma LeadsFront(cb: Callbacks, uri: JsString, at: Success, rs: seq<CommitRecord>, s: Success)
    requires Consecutive(rs) && rs != []
    ensures LeadsTo(cb, uri, at, rs, s) <==>
      ReplayOne(cb, uri, at, rs[0]).Ok? && LeadsTo(cb, uri, ReplayOne(cb, uri, at, rs[0]).value, rs[1..], s)
  {
    hide Steps, Chain, Connects, ReplayOne, LaterRecords;
    OneReplayed(cb, uri, at, rs[0]);
    LaterAfterFirst(at.head.revision.sequence, rs);
    if rs[0].sequence > at.head.revision.sequence {
      ConnectsOverFirst(cb, uri, at, rs, s);
    }
  }

  lemma ConnectsOverFirst(cb: Callbacks, uri: JsString, at: Success, rs: seq<CommitRecord>, s: Success)
    requires rs != [] && rs[0].sequence > at.head.revision.sequence
    ensures var later := LaterRecords(rs[0].sequence, rs[1..]);
            (exists bases :: Connects(cb, uri, at.head, [rs[0]] + later, s.head, bases)) <==>
            exists next :: Steps(cb, uri, at.head, rs[0], next) &&
              exists bases :: Connects(cb, uri, next, later, s.head, bases)
  {
    hide Steps, LaterRecords;
    var later := LaterRecords(rs[0].sequence, rs[1..]);
    forall bases | Connects(cb, uri, at.head, [rs[0]] + later, s.head, bases)
      ensures Steps(cb, uri, at.head, rs[0], bases[1]) && Connects(cb, uri, bases[1], later, s.head, bases[1..])
    {
      assert bases == [at.head] + bases[1..];
      ConnectsFront(cb, uri, at.head, rs[0], later, s.head, bases[1..]);
    }
    forall next, bases | Steps(cb, uri, at.head, rs[0], next) && Connects(cb, uri, next, later, s.head, bases)
      ensures Connects(cb, uri, at.head, [rs[0]] + later, s.head, [at.head] + bases)
    {
      ConnectsFront(cb, uri, at.head, rs[0], later, s.head, bases);
    }
  }

  /** Replaying consecutive records succeeds exactly where they lead. */
  lemma {:induction false} ReplayLeads(cb: Callbacks, uri: JsString, at: Success, rs: seq<CommitRecord>, s: Success)
    requires Consecutive(rs)
    ensures Replay(cb, uri, at, rs) == Ok(s) <==> LeadsTo(cb, uri, at, rs, s)
    decreases |rs|
  {
    hide Steps, ReplayOne, LeadsTo;
    if rs == [] {
      LeadsNowhere(cb, uri, at, s);
    } else {
      LeadsFront(cb, uri, at, rs, s);
      ConsecutiveTail(rs);
      match ReplayOne(cb, uri, at, rs[0])
      case Err(_) =>
      case Ok(next) => ReplayLeads(cb, uri, next, rs[1..], s);
    }
  }

  lemma LeadsNowhere(cb: Callbacks, uri: JsString, at: Success, s: Success)
    ensures LeadsTo(cb, uri, at, [], s) <==> s == at
  {
    assert Connects(cb, uri, at.head, [], at.head, [at.head]);
  }

  /** It fails exactly with the fault of the first record that has one. */
  lemma {:induction false} ReplayFails(cb: Callbacks, uri: JsString, at: Success, rs: seq<CommitRecord>, e: Failure)
    requires Consecutive(rs)
    ensures Replay(cb, uri, at, rs) == Err(e) <==> exists n: nat :: FailsAt(cb, uri, at, rs, n, e)
    decreases |rs|
  {
    hide Steps, ReplayOne, LeadsTo, IsFault;
    if rs != [] {
      ConsecutiveTail(rs);
      OneReplayed(cb, uri, at, rs[0]);
      assert rs[..0] == [];
      LeadsNowhere(cb, uri, at, at);
      match ReplayOne(cb, uri, at, rs[0])
      case Err(_) => FailsFirst(cb, uri, at, rs, e);
      case Ok(next) =>
        ReplayFails(cb, uri, next, rs[1..], e);
        FailsLater(cb, uri, at, rs, e);
    }
  }

  lemma FailsFirst(cb: Callbacks, uri: JsString, at: Success, rs: seq<CommitRecord>, e: Failure)
    requires Consecutive(rs) && rs != [] && ReplayOne(cb, uri, at, rs[0]).Err?
    ensures (exists n: nat :: FailsAt(cb, uri, at, rs, n, e)) <==> ReplayOne(cb, uri, at, rs[0]) == Err(e)
  {
    hide ReplayOne, LeadsTo, IsFault;
    OneReplayed(cb, uri, at, rs[0]);
    assert rs[..0] == [];
    forall mid ensures LeadsTo(cb, uri, at, rs[..0], mid) <==> mid == at { LeadsNowhere(cb, uri, at, mid); }
    forall n: nat | FailsAt(cb, uri, at, rs, n, e) ensures n == 0 {
      var mid :| LeadsTo(cb, uri, at, rs[..n], mid);
      if n > 0 { LeadsFront(cb, uri, at, rs[..n], mid); }
    }
    if ReplayOne(cb, uri, at, rs[0]) == Err(e) { assert FailsAt(cb, uri, at, rs, 0, e); }
  }

  lemma FailsLater(cb: Callbacks, uri: JsString, at: Success, rs: seq<CommitRecord>, e: Failure)
    requires Consecutive(rs) && rs != [] && ReplayOne(cb, uri, at, rs[0]).Ok?
    ensures (exists n: nat :: FailsAt(cb, uri, at, rs, n, e)) <==>
      exists n: nat :: FailsAt(cb, uri, ReplayOne(cb, uri, at, rs[0]).value, rs[1..], n, e)
  {
    hide ReplayOne, LeadsTo, IsFault;
    OneReplayed(cb, uri, at, rs[0]);
    var next := ReplayOne(cb, uri, at, rs[0]).value;
    forall n: nat | n < |rs[1..]|
      ensures FailsAt(cb, uri, at, rs, n + 1, e) <==> FailsAt(cb, uri, next, rs[1..], n, e)
    {
      assert rs[..n + 1][1..] == rs[1..][..n];
      forall mid ensures LeadsTo(cb, uri, at, rs[..n + 1], mid) <==> LeadsTo(cb, uri, next, rs[1..][..n], mid) {
        LeadsFront(cb, uri, at, rs[..n + 1], mid);
      }
    }
    forall n: nat | FailsAt(cb, uri, at, rs, n, e)
      ensures n > 0 && FailsAt(cb, uri, next, rs[1..], n - 1, e)
    {
      if n == 0 { NoFaultFirst(cb, uri, at, rs, e); }
      assert n == n - 1 + 1;
    }
  }

  lemma NoFaultFirst(cb: Callbacks, uri: JsString, at: Success, rs: seq<CommitRecord>, e: Failure)
    requires rs != [] && ReplayOne(cb, uri, at, rs[0]).Ok?
    ensures !FailsAt(cb, uri, at, rs, 0, e)
  {
    hide ReplayOne, LeadsTo, IsFault;
    OneReplayed(cb, uri, at, rs[0]);
    assert rs[..0] == [];
    forall mid ensures LeadsTo(cb, uri, at, rs[..0], mid) <==> mid == at { LeadsNowhere(cb, uri, at, mid); }
  }

  /** What replay answers, for any callbacks. */
  lemma ReplayMeans(cb: Callbacks, uri: JsString, base: Base, rs: seq<CommitRecord>)
    ensures forall s :: Recovers(cb, uri, base, rs, s) <==> ReplayAll(cb, uri, base, rs) == Ok(s)
    ensures forall e :: Refuses(cb, uri, base, rs, e) <==> ReplayAll(cb, uri, base, rs) == Err(e)
  {
    hide LeadsTo, FailsAt;
    if LinearHistory(uri, base, rs) {
      forall s ensures Recovers(cb, uri, base, rs, s) <==> ReplayAll(cb, uri, base, rs) == Ok(s) {
        ReplayLeads(cb, uri, Success(base, 0), rs, s);
      }
      forall e ensures Refuses(cb, uri, base, rs, e) <==> ReplayAll(cb, uri, base, rs) == Err(e) {
        ReplayFails(cb, uri, Success(base, 0), rs, e);
      }
    }
  }

  /** The snapshot is that of the revision. */
  predicate BelongTogether(b: Base)
  {
    b.snapshot.revisionId == b.revision.id && b.snapshot.documentHash == b.revision.documentHash
  }

  /** A state that records lead to is the one before them or one whose revision and snapshot are those of a record. */
  lemma HeadBelongsTogether(cb: Callbacks, uri: JsString, base: Base, rs: seq<CommitRecord>, s: Success)
    requires Recovers(cb, uri, base, rs, s) && BelongTogether(base)
    ensures BelongTogether(s.head)
  {
    var later := LaterRecords(base.revision.sequence, rs);
    var bases :| Connects(cb, uri, base, later, s.head, bases);
    if later != [] {
      var n := |later| - 1;
      assert Steps(cb, uri, bases[n], later[n], bases[n + 1]);
    }
  }

  /** A state that records lead to is the one before them or one whose snapshot was accepted. */
  lemma HeadAccepted(cb: Callbacks, uri: JsString, base: Base, rs: seq<CommitRecord>, s: Success)
    requires Recovers(cb, uri, base, rs, s)
    ensures s.head == base || cb.validateSnapshot(s.head.snapshot)
  {
    var later := LaterRecords(base.revision.sequence, rs);
    var bases :| Connects(cb, uri, base, later, s.head, bases);
    if later != [] { assert Steps(cb, uri, bases[|later| - 1], later[|later| - 1], bases[|later|]); }
  }

  /** `replayRecords` */
  method ReplayRecords(cb: Callbacks, uri: JsString, base: Base, rs: seq<CommitRecord>)
    returns (r: Result<Success, Failure>)
    ensures r == ReplayAll(cb, uri, base, rs)
    ensures forall s :: Recovers(cb, uri, base, rs, s) <==> r == Ok(s)
    ensures forall e :: Refuses(cb, uri, base, rs, e) <==> r == Err(e)
  {
    ReplayMeans(cb, uri, base, rs);
    var linear := ValidateWalStream(uri, base, rs);
    if !linear {
      return Err(HistoryDiscontinuous);
    }
    var currentRevision, currentSnapshot, appliedRecordCount := base.revision, base.snapshot, 0;
    assert rs[0..] == rs;
    for i := 0 to |rs|
      invariant Replay(cb, uri, Success(base, 0), rs)
             == Replay(cb, uri, Success(Base(currentRevision, currentSnapshot), appliedRecordCount), rs[i..])
    {
      var record := rs[i];
      assert rs[i..][0] == record && rs[i..][1..] == rs[i + 1..];
      if !cb.validateRecord(record) {
        return Err(RecordInvalid);
      }
      if record.sequence > currentRevision.sequence {
        if !Continues(uri, currentRevision, record) {
          return Err(HistoryDiscontinuous);
        }
        var replayed := cb.replay(currentSnapshot, currentRevision, record);
        if replayed.None? {
          return Err(ReplayFailed);
        }
        if !Replayed(replayed.value, record) {
          return Err(DocumentHashMismatch);
        }
        if !cb.validateSnapshot(replayed.value.snapshot) {
          return Err(SnapshotInvalid);
        }
        currentRevision, currentSnapshot := replayed.value.revision, replayed.value.snapshot;
        appliedRecordCount := appliedRecordCount + 1;
      }
    }
    return Ok(Success(Base(currentRevision, currentSnapshot), appliedRecordCount));
  }

  lemma {:induction false} ReplayConcat(cb: Callbacks, uri: JsString, at: Success, a: seq<CommitRecord>,
                                        b: seq<CommitRecord>)
    ensures Replay(cb, uri, at, a + b)
         == match Replay(cb, uri, at, a) case Err(e) => Err(e) case Ok(mid) => Replay(cb, uri, mid, b)
    decreases |a|
  {
    if a == [] {
      assert a + b == b;
    } else {
      assert (a + b)[1..] == a[1..] + b;
      match ReplayOne(cb, uri, at, a[0])
      case Err(_) =>
      case Ok(next) => ReplayConcat(cb, uri, next, a[1..], b);
    }
  }

  // ---------------------------------------------------------------- when recovery succeeds

  /** Callbacks that accept everything and replay to the announced identity. */
  ghost predicate Accepting(cb: Callbacks)
  {
    (forall r :: cb.validateRecord(r)) && (forall s :: cb.validateSnapshot(s)) &&
    forall s, v, r :: cb.replay(s, v, r).Some? && Replayed(cb.replay(s, v, r).value, r)
  }

  /** The log does not start after the record that would follow the base. */
  predicate NoGap(base: Base, rs: seq<CommitRecord>)
  {
    rs == [] || rs[0].sequence <= base.revision.sequence ||
    (rs[0].sequence == base.revision.sequence + 1 && rs[0].parentRevisionId == Some(base.revision.id))
  }

  /** The log continues the state: its first later record follows it directly. */
  predicate Follows(v: Revision, rs: seq<CommitRecord>)
  {
    rs == [] || (rs[0].sequence < v.sequence) || (rs[0].sequence == v.sequence && rs[0].revisionId == v.id) ||
    (rs[0].sequence == v.sequence + 1 && rs[0].parentRevisionId == Some(v.id))
  }

  function LaterCount(v: Revision, rs: seq<CommitRecord>): nat
  {
    if rs == [] || rs[|rs| - 1].sequence <= v.sequence then 0 else rs[|rs| - 1].sequence - v.sequence
  }

  lemma {:induction false} ReplaySucceedsFrom(cb: Callbacks, uri: JsString, at: Success, rs: seq<CommitRecord>)
    requires Accepting(cb) && Chained(uri, rs)
    requires forall i :: 0 <= i < |rs| && rs[i].sequence == at.head.revision.sequence ==>
      rs[i].revisionId == at.head.revision.id
    ensures Replay(cb, uri, at, rs).Ok? <==> Follows(at.head.revision, rs)
    ensures Replay(cb, uri, at, rs).Ok? ==>
      var s := Replay(cb, uri, at, rs).value;
      s.appliedRecordCount == at.appliedRecordCount + LaterCount(at.head.revision, rs) &&
      s.head.revision.sequence == at.head.revision.sequence + LaterCount(at.head.revision, rs)
    decreases |rs|
  {
    if rs != [] {
      ConsecutiveSequences(rs);
      var v := at.head.revision;
      var tail := rs[1..];
      assert Chained(uri, tail) by {
        forall i | 0 < i < |tail| ensures Succeeds(tail[i - 1], tail[i]) {
          assert Succeeds(rs[i], rs[i + 1]);
        }
      }
      if rs[0].sequence <= v.sequence || Continues(uri, v, rs[0]) {
        var next := ReplayOne(cb, uri, at, rs[0]).value;
        ReplaySucceedsFrom(cb, uri, next, tail);
        if tail != [] { assert tail[0] == rs[1] && tail[|tail| - 1] == rs[|rs| - 1]; }
      }
    }
  }

  /** Recovery with accepting callbacks succeeds exactly on a linear history without a gap after
      the base; the head is then as many steps past the base as records were applied. */
  lemma RecoverySucceedsIff(cb: Callbacks, uri: JsString, base: Base, rs: seq<CommitRecord>)
    requires Accepting(cb)
    ensures ReplayAll(cb, uri, base, rs).Ok? <==> LinearHistory(uri, base, rs) && NoGap(base, rs)
    ensures ReplayAll(cb, uri, base, rs).Ok? ==>
      var s := ReplayAll(cb, uri, base, rs).value;
      s.head.revision.sequence == base.revision.sequence + s.appliedRecordCount &&
      s.appliedRecordCount == LaterCount(base.revision, rs)
  {
    if LinearHistory(uri, base, rs) {
      ReplaySucceedsFrom(cb, uri, Success(base, 0), rs);
    }
  }

  // ---------------------------------------------------------------- checkpoints

  /** Replay looks at the revision it starts from, but not at its durability tag. */
  ghost predicate IgnoresDurability(cb: Callbacks)
  {
    forall s, v: Revision, r, d :: cb.replay(s, v.(durability := d), r) == cb.replay(s, v, r)
  }

  ghost function Tagged(b: Base, d: Durability): Base { b.(revision := b.revision.(durability := d)) }

  lemma {:induction false} ReplaySkips(cb: Callbacks, uri: JsString, at: Success, rs: seq<CommitRecord>)
    requires forall i :: 0 <= i < |rs| ==> cb.validateRecord(rs[i]) && rs[i].sequence <= at.head.revision.sequence
    ensures Replay(cb, uri, at, rs) == Ok(at)
  {
    if rs != [] { ReplaySkips(cb, uri, at, rs[1..]); }
  }

  lemma {:induction false} ReplayFromTagged(cb: Callbacks, uri: JsString, b: Base, d: Durability, n: nat, m: nat,
                                            rs: seq<CommitRecord>)
    requires IgnoresDurability(cb) && Replay(cb, uri, Success(b, n), rs).Ok?
    ensures var tagged := Replay(cb, uri, Success(Tagged(b, d), m), rs);
            tagged.Ok? && exists e :: tagged.value.head == Tagged(Replay(cb, uri, Success(b, n), rs).value.head, e)
    decreases |rs|
  {
    if rs == [] {
      assert Tagged(b, d) == Tagged(b, d);
    } else {
      var next := ReplayOne(cb, uri, Success(b, n), rs[0]).value;
      assert cb.replay(b.snapshot, b.revision.(durability := d), rs[0]) == cb.replay(b.snapshot, b.revision, rs[0]);
      if rs[0].sequence <= b.revision.sequence {
        ReplayFromTagged(cb, uri, b, d, n, m, rs[1..]);
      } else {
        assert next.head == Tagged(next.head, next.head.revision.durability);
        ReplayFromTagged(cb, uri, next.head, next.head.revision.durability, n + 1, m + 1, rs[1..]);
      }
    }
  }

  /** Every record was validated, and the state after a record that was applied carries its identity. */
  lemma {:induction false} ReplayReaches(cb: Callbacks, uri: JsString, at: Success, rs: seq<CommitRecord>)
    requires rs != [] && Replay(cb, uri, at, rs).Ok?
    requires Consecutive(rs)
    ensures forall i :: 0 <= i < |rs| ==> cb.validateRecord(rs[i])
    ensures rs[|rs| - 1].sequence > at.head.revision.sequence ==>
      Matches(rs[|rs| - 1], Replay(cb, uri, at, rs).value.head.revision)
    decreases |rs|
  {
    var next := ReplayOne(cb, uri, at, rs[0]).value;
    ConsecutiveSequences(rs);
    if |rs| > 1 {
      var tail := rs[1..];
      assert Consecutive(tail) by {
        forall i | 0 < i < |tail| ensures tail[i].sequence == tail[i - 1].sequence + 1 {
          assert rs[i + 1].sequence == rs[i].sequence + 1;
        }
      }
      ReplayReaches(cb, uri, next, tail);
      assert tail[|tail| - 1] == rs[|rs| - 1];
    } else {
      assert rs[1..] == [];
    }
  }

  lemma LinearTagged(uri: JsString, base: Base, d: Durability, rs: seq<CommitRecord>)
    requires LinearHistory(uri, base, rs)
    ensures LinearHistory(uri, Tagged(base, d), rs)
  {
  }

  lemma LinearFromCheckpoint(uri: JsString, base: Base, checkpoint: Base, rs: seq<CommitRecord>, i: nat)
    requires LinearHistory(uri, base, rs) && i < |rs| && Matches(rs[i], checkpoint.revision)
    ensures LinearHistory(uri, checkpoint, rs)
  {
    ConsecutiveSequences(rs);
  }

  /** Checkpoint transparency: restarting from the state reached after any number of records, over
      the same whole log, succeeds as well and ends in the same snapshot and revision identity. */
  lemma CheckpointIsTransparent(cb: Callbacks, uri: JsString, base: Base, rs: seq<CommitRecord>, n: nat, d: Durability)
    requires IgnoresDurability(cb) && ReplayAll(cb, uri, base, rs).Ok? && n <= |rs|
    ensures Replay(cb, uri, Success(base, 0), rs[..n]).Ok?
    ensures var checkpoint := Tagged(Replay(cb, uri, Success(base, 0), rs[..n]).value.head, d);
            var again := ReplayAll(cb, uri, checkpoint, rs);
            again.Ok? && exists e :: again.value.head == Tagged(ReplayAll(cb, uri, base, rs).value.head, e)
  {
    var front, back := rs[..n], rs[n..];
    assert front + back == rs;
    ReplayConcat(cb, uri, Success(base, 0), front, back);
    var mid := Replay(cb, uri, Success(base, 0), front).value;
    var checkpoint := Tagged(mid.head, d);
    CheckpointReached(cb, uri, base, rs, n, mid, d);
    ReplayConcat(cb, uri, Success(checkpoint, 0), front, back);
    ReplayFromTagged(cb, uri, mid.head, d, mid.appliedRecordCount, 0, back);
  }

  /** The history is linear from the state after `n` records too, and replaying those records from
      it changes nothing. */
  lemma CheckpointReached(cb: Callbacks, uri: JsString, base: Base, rs: seq<CommitRecord>, n: nat, mid: Success,
                          d: Durability)
    requires LinearHistory(uri, base, rs) && n <= |rs|
    requires Replay(cb, uri, Success(base, 0), rs[..n]) == Ok(mid)
    ensures LinearHistory(uri, Tagged(mid.head, d), rs)
    ensures Replay(cb, uri, Success(Tagged(mid.head, d), 0), rs[..n]) == Ok(Success(Tagged(mid.head, d), 0))
  {
    var front := rs[..n];
    if n > 0 {
      assert Consecutive(front) by {
        forall j | 0 < j < |front| ensures front[j].sequence == front[j - 1].sequence + 1 {
          assert Succeeds(rs[j - 1], rs[j]);
        }
      }
      ReplayReaches(cb, uri, Success(base, 0), front);
      ConsecutiveSequences(front);
    }
    if n == 0 || rs[n - 1].sequence <= base.revision.sequence {
      ReplaySkips(cb, uri, Success(base, 0), front);
      LinearTagged(uri, base, d, rs);
    } else {
      LinearFromCheckpoint(uri, base, Tagged(mid.head, d), rs, n - 1);
    }
    ReplaySkips(cb, uri, Success(Tagged(mid.head, d), 0), front);
  }
}
