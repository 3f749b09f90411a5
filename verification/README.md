# Verification model

This project models the parts of the repository that carry the hardest promises and proves them:

- the write-ahead log and crash recovery: the record codec (`Utf8`, `Crc32`, `WalFrames`, `WalRecord`, `WalCodec`) and
  what its bytes mean (`BigEndianNumbers`, `CrcPolynomial`, `CrcExample`, `WalLayout`, `WalMeaning`, `RecordNames`), the
  in-memory durable storage (`DurableStorage`), history checks and replay (`Recovery`, `OneHistory`,
  `DocumentRecovery`), the snapshot store and its interleavings (`SnapshotStore`, `CommitOutcome`, `SnapshotCodec`,
  `ManifestLinearity`, `SnapshotReads`), and the end-to-end theorems (`Durability`, `StaleTruncation`,
  `CheckpointedRecovery`, `SnapshotAhead`);
- incremental hashing: SHA-256 against FIPS 180-4 (`Sha256Words`, `Sha256Standard`, `Sha256`, `Sha256Padding`,
  `Sha256Example`), hash domains and hash texts (`HexText`, `HashPreimage`, `PreimageFields`) and the patched UTF-8
  cache (`TextEncoder`, `TrustedUtf8`, `TrustedUtf8Cache`, `PatchReports`);
- canonical forms: canonical JSON with a parser and on object graphs (`CodePointOrder`, `Utf8Order`, `CanonicalJson`,
  `JsonText`, `JsonCanonical`, `JsonCompact`, `JsonGraph`) and resource URIs (`PercentEncoding`, `PathSegments`,
  `DotSegments`, `KeptSegments`, `ResourceUri`, `BracketedHosts`, `ResourceNames`);
- state machines and graphs: the dependency closure (`DependencyClosure`), the head tracking of a model (`AuthorityModel`),
  the snapshot cache (`SnapshotCache`), freezing and inspecting object graphs (`Freeze`), and the UUIDv7 allocator (`UuidV7`).

`dafny verify dfyconfig.toml` checks the whole project.

Conventions:

- JavaScript strings are sequences of UTF-16 code units, byte arrays are sequences or arrays of integers below 256.  Bit
  operations on disjoint bit fields are written as division and remainder; only CRC-32 and SHA-256 use bit vectors.
- An asynchronous storage operation is a check (`gate`) followed by one atomic effect.  The two are separate steps of the
  source, so no theorem says that the fence is current when the effect happens.
- Theorems over runs quantify over every finite sequence of steps; the steps of different callers interleave at each await.
- `replay`, `validateRecord`, `validateSnapshot`, the snapshot codec, identifier formats and the reading of JSON numbers are
  parameters, as most of them are in the source.  "Accepting" callbacks accept everything and replay to the announced
  identity.

Findings:

- The UTF-8 cache is not exact for text with lone surrogates: `TrustedUtf8Cache.LoneSurrogatesBreakThePatch` deletes one letter
  and the cached bytes are wrong.  `TrustedUtf8.PatchExactIff` gives the exact condition; canonical JSON text, the only text
  that callers pass, always meets it.
- A commit that brings the current revision id with another document hash, and no later sequence, is refused, but has replaced
  the stored snapshot by then, and `readLatest` reports corruption from then on: `SnapshotReads.SecondCommitOfRevision` shows that
  the document stays readable exactly when the hash is the same or the commit supersedes the manifest.  Manifests stay linear.
- Compare-and-truncate compares lengths only.  If two recoveries under one fence read the same torn tail, the second cuts it off
  and the writer syncs a frame of just as many bytes, the truncation of the first removes that frame
  (`Durability.StaleTruncationLosesRecord`; `StaleTruncation.SyncedRecordIsLost` is one such run, with all its inputs given).
  `DocumentRecovery.TruncationKeepsRecordsIff`: on any store a truncation keeps all complete records exactly when none ends
  behind the boundary by then.
- A snapshot of records that are not synced yet outlives the crash that loses them, and the record written on top of it leaves a
  gap in the log: `SnapshotAhead.SnapshotAheadOfLog` shows that the next recovery succeeds exactly when the snapshot was not
  ahead of the synced log, or when that log was empty.
- A log that ends before the parent of the stored revision is accepted, with nothing applied, whether or not it led to that
  revision; only repeated ids are refused (the last case of `OneHistory.RecoversIffOneHistory`).
- A torn tail of 4112 bytes or more is reported as corruption, because the resync scan runs out of budget; the source does
  this on purpose, and `WalCodec.WalTornTail` gives both sides of the bound.
- The rule of ADR 002 on escapes (unreserved characters decoded, the rest in upper case) does not hold in a bracketed host, of
  which only the case is changed: "x://[%2F]" becomes "x://[%2f]" (`BracketedHosts.LowerCaseEscapeStays`).
  `BracketedHosts.EscapesAreNormalIff` says exactly for which outputs it holds.
- Path normalization is not quite that of section 5.2.4 of RFC 3986: "/a///b" becomes "/a//b", and "/a//../b" becomes "/b"
  (`DotSegments.RunOfSlashes`, `DotSegments.EmptyBeforeDots`).  `KeptSegments.AgreesIffOnSegments` says exactly when
  the two agree.

## Model

| member | source | states |
|---|---|---|
| `Durability.SyncedLogIsRecovered` | src/storage/recovery.ts:79-119 | after every run of append, sync and crash by one writer, with any other storage traffic beside it, recovery succeeds and returns exactly the fold of replay over the synced log, with no tail cut off |
| `Durability.CrashLosesOnlyUnsynced` | src/storage/in-memory-durable-storage.ts:300-310 | a crash leaves the synced log as the whole log and does not change what recovery returns |
| `Durability.SyncedRecordsStay` | src/storage/in-memory-durable-storage.ts:106-114 | the synced log of an earlier moment is a prefix of that of any later moment: none of these steps loses a synced record |
| `Durability.RunFaithful` | src/storage/in-memory-durable-storage.ts:93-114 | at every moment the volatile and the durable bytes are exactly the frames of the written and of the synced log, both valid logs of the writer, the second a prefix of the first |
| `Durability.RecoveredHeadContinues` | src/storage/recovery.ts:389-405 | the record a writer may append after a crash continues the head that recovery returns |
| `Durability.WriterLogIsLinear` | src/storage/recovery.ts:271-316 | records that each continue the log form a linear history without a gap |
| `Durability.ReplayIsFold` | src/storage/recovery.ts:213-268 | on such a log the replay loop applies every record, in order |
| `Durability.CheckpointRecovers` | src/storage/recovery.ts:126-165 | recovery of the same log from a snapshot of any synced prefix gives the same snapshot and revision identity |
| `Durability.TornTailIsCutOff` | src/storage/recovery.ts:167-195 | a frame torn below 4112 bytes at the end of the durable WAL is removed from storage at its boundary, and the complete records before it are recovered |
| `Durability.StaleTruncationLosesRecord` | src/storage/recovery.ts:167-195 | a run that loses a synced record: the truncation of an earlier recovery is accepted after another recovery has cut the same tail and a frame of the same length has been synced |
| `StaleTruncation.SyncedRecordIsLost` | src/storage/recovery.ts:167-195 | that run exists: with the default payload limit and two first records whose replay inputs differ in length, the synced record is recovered, the late truncation succeeds, and the record is gone |
| `Durability.DamageStopsRecovery` | src/storage/recovery.ts:97-108 | any changed byte in the checksum or payload of a durable frame makes recovery fail with the offset of exactly that frame |
| `CheckpointedRecovery.CheckpointedRecoveryIsTransparent` | src/storage/recovery.ts:79-165 | the log writer, any number of snapshot commits stopped at every await, and crashes, in any order: recovery that reads the manifest, the snapshot and the log at three moments in this order returns the state after the whole synced log, up to the durability tag; no snapshot in storage is assumed |
| `CheckpointedRecovery.ReadsAState` | src/storage/snapshot-store.ts:219-274 | whatever manifest was seen and whatever snapshot is stored for it later, reading them gives one state of the document along the synced log, revision and snapshot belonging together |
| `CheckpointedRecovery.RunKeepsStates` | src/storage/snapshot-store.ts:127-217 | in every such run all stored manifests, snapshots and temporaries of the document are those of states along the synced log |
| `CheckpointedRecovery.EarlierMoment` | src/storage/in-memory-durable-storage.ts:106-114 | the synced log of an earlier moment is a prefix of the later one, snapshot traffic included |
| `SnapshotAhead.SnapshotAheadOfLog` | src/storage/recovery.ts:126-165 | a commit, one that storage accepts, of the state after any number of written records, then a crash, recovery, and one more synced record on top of the recovered head: the next recovery succeeds if and only if the snapshot was not ahead of the synced log, or nothing had been synced |
| `SnapshotAhead.NextReplayIff` | src/storage/recovery.ts:271-340 | replay of a log with one more record after a recovered head accepts it if and only if the snapshot was not ahead of the log or the log was empty |
| `SnapshotAhead.NothingToReplay` | src/storage/recovery.ts:213-268 | over a snapshot ahead of the log recovery returns that snapshot and applies nothing |
| `DocumentRecovery.RecoverDocument` | src/storage/recovery.ts:79-119 | base, snapshot check, durable read, decode, tail truncation and replay, with the storage state and the failure of every branch |
| `DocumentRecovery.RecoveryMeans` | src/storage/recovery.ts:79-165 | for any callbacks, bytes and wait outcomes: recovery hands out a head if and only if there is an accepted base that storage or a consistent fallback gives, the log holds records up to a boundary behind which a torn tail can be cut off, and the records lead from the base to the head; it fails with a reason if and only if the base, the log or the records give it |
| `DocumentRecovery.TruncateAndReplay` | src/storage/recovery.ts:97-119 | a corrupt WAL, a refused truncation and a refused replay each end recovery with their own failure |
| `DocumentRecovery.TruncateIncompleteTail` | src/storage/recovery.ts:167-195 | storage is cut at the valid boundary, only when there is a tail and its length is still the one read |
| `DocumentRecovery.RecoveredHeadAccepted` | src/storage/recovery.ts:79-119 | for any callbacks, recovery hands out no head whose snapshot was not accepted |
| `DocumentRecovery.RecoveredHeadBelongsTogether` | src/storage/recovery.ts:79-119 | nor one whose snapshot is not that of its revision, unless storage held it like that |
| `DocumentRecovery.RecoveredWal` | src/storage/recovery.ts:92-119 | whatever the bytes were, successful recovery leaves exactly the frames of the records it decoded |
| `DocumentRecovery.RecoveryIsIdempotent` | src/storage/recovery.ts:79-119 | from arbitrary bytes: recovering a second time gives the same head, changes nothing and finds no tail |
| `DocumentRecovery.TruncationKeepsRecordsIff` | src/storage/in-memory-durable-storage.ts:136-149 | on any store an accepted truncation cuts at the given boundary, and keeps every complete durable record if and only if none ends behind that boundary |
| `Recovery.ValidateWalStream` | src/storage/recovery.ts:271-316 | the one-pass check with two growing id sets accepts a log if and only if it is a linear history over the base |
| `Recovery.ValidateIdentity` | src/storage/recovery.ts:355-387 | an id is refused exactly when it repeats one of the base or of an earlier record, the base's own record counting once |
| `Recovery.ValidateBaseWalBoundary` | src/storage/recovery.ts:318-340 | the two lookups by sequence decide whether the log agrees with the base and its parent |
| `Recovery.FindSequence` | src/storage/recovery.ts:322 | finds a record with the given sequence, or there is none |
| `Recovery.ReplayRecords` | src/storage/recovery.ts:202-269 | for any callbacks: success with this head and count if and only if the history is linear and the records above the base lead to it, one accepted replay and one accepted snapshot for each; failure with exactly the fault of the first record that has one |
| `Recovery.ReplayMeans` | src/storage/recovery.ts:202-269 | the same of the recursive replay: what it answers is what the chain of bases says, in both directions |
| `Recovery.ReplayLeads` | src/storage/recovery.ts:213-268 | consecutive records are replayed to a head if and only if there is a sequence of bases from the given one to it, each step validated, continuing the one before, replayed, of the announced identity at WAL level and accepted as a snapshot |
| `Recovery.ReplayFails` | src/storage/recovery.ts:213-268 | they fail with a reason if and only if some record, after steps that all succeed, is the first with a fault, and this is its reason |
| `Recovery.RecoverySucceedsIff` | src/storage/recovery.ts:202-316 | with accepting callbacks recovery succeeds if and only if the history is linear and leaves no gap after the base; the head sequence is then the base sequence plus the number of applied records |
| `OneHistory.RecoversIffOneHistory` | src/storage/recovery.ts:202-387 | with accepting callbacks recovery succeeds if and only if the log and the revision of the base are parts of one history, the revision being in the log, its next record or the one before it, or all of the log is older than the parent of the revision and shares no id with it |
| `Recovery.ReplayConcat` | src/storage/recovery.ts:217-255 | replaying a log is replaying its front and then the rest |
| `Recovery.LinearFromCheckpoint` | src/storage/recovery.ts:318-387 | a history that is linear over a base is linear over the revision of any of its later records |
| `Recovery.CheckpointIsTransparent` | src/storage/recovery.ts:126-165 | if recovery over a whole log succeeds, it succeeds from the state after any number of its records over the same log, with the same final snapshot and revision identity up to the durability tag |
| `WalCodec.Encode` | src/storage/wal-record-codec.ts:44-74 | length, checksum and canonical JSON payload, or the reason why not |
| `WalLayout.FrameLayout` | src/storage/wal-record-codec.ts:44-74 | the first four bytes of a frame are the payload length, the next four the CRC-32 of the payload as a division of polynomials, both big-endian, and the rest is the payload |
| `WalCodec.DecodePayload` | src/storage/wal-record-codec.ts:144-191 | strict UTF-8, JSON, record shape and canonical form are checked in this order |
| `WalCodec.DecodeIsLeftInverse` | src/storage/wal-record-codec.ts:76-128 | on arbitrary bytes, whatever the outcome: re-encoding the returned records gives exactly the valid bytes, and those alone decode to the same records with no tail |
| `WalCodec.WalRoundTrip` | src/storage/wal-record-codec.ts:44-128 | the frames of valid records decode to exactly those records |
| `WalCodec.WalTornTail` | src/storage/wal-record-codec.ts:91-109 | the frames of valid records and a proper prefix of one more: the complete records, a truncated tail below 4112 stray bytes and corruption from there on |
| `WalCodec.WalDamageLocated` | src/storage/wal-record-codec.ts:111-116 | a changed byte in the checksum or payload of any frame is reported as a checksum mismatch at that frame, after exactly the records before it |
| `WalCodec.FormatDetects` | src/storage/wal-record-codec.ts:599-608 | no change of a single payload byte keeps the checksum |
| `WalCodec.PayloadReads` | src/storage/wal-record-codec.ts:144-191 | the payload of a valid record decodes to the record with canonical key order, and none of its bytes is below 0x20 |
| `RecordNames.ParseRecordIff` | src/storage/wal-record-codec.ts:233-290 | a JSON value is parsed to a record if and only if it is an object of just the ten fields whose named values describe that record |
| `RecordNames.WrittenFields` | src/storage/wal-record-codec.ts:20-31 | each field is written under its own name |
| `WalFrames.Decode` | src/storage/wal-record-codec.ts:76-128 | the offset loop is the frame-by-frame classification of the bytes |
| `WalMeaning.DecodeExplained` | src/storage/wal-record-codec.ts:76-128 | the answer on any bytes is the one that the bytes explain: whole readable frames as far as they go and then the end, a torn tail, a later record, or the first of the reasons for corruption, read off lengths and checksums at their offsets |
| `WalMeaning.ScanFindsNothingIff` | src/storage/wal-record-codec.ts:193-231 | the resync scan finds nothing if and only if both budgets suffice and no later offset holds a readable frame |
| `WalFrames.FindCompleteCanonicalFrameAfter` | src/storage/wal-record-codec.ts:193-231 | the resync scan with its candidate and byte budgets |
| `WalFrames.DecodedPrefix` | src/storage/wal-record-codec.ts:76-128 | the valid bytes of any input are the frames of the returned records |
| `WalFrames.DecodeOfFrames` | src/storage/wal-record-codec.ts:76-128 | readable frames decode to their records, all bytes valid |
| `WalFrames.TornTail` | src/storage/wal-record-codec.ts:193-231 | no window of a torn text payload is a plausible frame length, so only the budget decides between tail and corruption |
| `WalFrames.DamageLocated` | src/storage/wal-record-codec.ts:111-116 | damage anywhere in checksum or payload is found at the damaged frame, whatever follows it |
| `WalRecord.CheckJsonValue` | src/storage/wal-record-codec.ts:364-411 | the worklist decides the recursive definition of a JSON value within the depth limit |
| `WalRecord.TextRoundTrip` | src/storage/wal-record-codec.ts:144-191 | the canonical text of a valid record reads back as the record with canonical key order |
| `WalRecord.CanonicalText` | src/storage/wal-record-codec.ts:171-177 | putting the keys in canonical order once more changes neither the record nor its text |
| `WalRecord.ParsedRecord` | src/storage/wal-record-codec.ts:233-290 | the ten fields of a valid record are read back field by field |
| `Utf8.EncodeUtf8` | src/storage/wal-record-codec.ts:440-450 | the loop over code points is the encoding of RFC 3629 |
| `Utf8.DecodeUtf8` | src/storage/wal-record-codec.ts:482-506 | the loop over byte sequences accepts or refuses the whole input |
| `Utf8.DecodeCodePointExact` | src/storage/wal-record-codec.ts:508-597 | only the shortest encoding of a scalar value is accepted (section 3 of RFC 3629) |
| `Utf8.DecodeIsExact` | src/storage/wal-record-codec.ts:482-506 | accepted bytes are exactly the encoding of the decoded, well-formed text |
| `Utf8.RoundTrip` | src/storage/wal-record-codec.ts:440-506 | every well-formed text survives encoding and decoding |
| `Crc32.ComputeCrc32` | src/storage/wal-record-codec.ts:599-608 | the byte loop computes the checksum, which `CrcPolynomial.ChecksumIsRemainder` says what it is |
| `CrcPolynomial.ChecksumIsRemainder` | src/storage/wal-record-codec.ts:599-608 | complemented and reflected, the checksum is the one remainder of the message times x^32, low bits first and the first 32 bits complemented, modulo x^32+x^26+x^23+x^22+x^16+x^12+x^11+x^10+x^8+x^7+x^5+x^4+x^2+x+1 |
| `CrcPolynomial.DividedIsRemainder` | src/storage/wal-record-codec.ts:599-608 | every polynomial has exactly one remainder, the one that long division finds |
| `CrcExample.CheckValue` | src/storage/wal-record-codec.ts:599-608 | the checksum of "123456789" is 0xCBF43926 |
| `Crc32.ShiftEightBits` | src/storage/wal-record-codec.ts:603-606 | the inner loop is eight bit steps |
| `Crc32.SingleByteChangesChecksum` | src/storage/wal-record-codec.ts:599-608 | two texts of one length that differ in one byte have different checksums |
| `DurableStorage.InMemoryDurableStorage.Append` | src/storage/in-memory-durable-storage.ts:93-104 | only the volatile bytes grow, by the frame; a failed wait changes nothing |
| `DurableStorage.InMemoryDurableStorage.Fsync` | src/storage/in-memory-durable-storage.ts:106-114 | the durable bytes become the volatile ones; a failed wait changes nothing |
| `DurableStorage.InMemoryDurableStorage.ReadDurable` | src/storage/in-memory-durable-storage.ts:116-125 | returns the durable bytes, creating an empty entry for a new document |
| `DurableStorage.InMemoryDurableStorage.TruncateDurable` | src/storage/in-memory-durable-storage.ts:127-150 | both copies are cut, unless the durable length has changed or the boundary is invalid |
| `DurableStorage.InMemoryDurableStorage.WriteTemporary` | src/storage/in-memory-durable-storage.ts:152-163 | replaces the temporary under its key and keeps a stale synced mark |
| `DurableStorage.InMemoryDurableStorage.FsyncTemporary` | src/storage/in-memory-durable-storage.ts:165-183 | marks an existing temporary as synced |
| `DurableStorage.InMemoryDurableStorage.AtomicRename` | src/storage/in-memory-durable-storage.ts:202-225 | a synced temporary becomes the snapshot and is gone; anything else is refused |
| `DurableStorage.InMemoryDurableStorage.SwitchManifest` | src/storage/in-memory-durable-storage.ts:254-298 | compare-and-swap on the generation: refused when it has changed, when the sequence would fall or when the snapshot is missing |
| `DurableStorage.InMemoryDurableStorage.Crash` | src/storage/in-memory-durable-storage.ts:300-310 | every volatile copy falls back to the durable one, temporaries and marks are gone, snapshots and manifests stay |
| `DurableStorage.InMemoryDurableStorage.SeedDurableWal` | src/storage/in-memory-durable-storage.ts:316-321 | both copies become the given bytes |
| `DurableStorage.InMemoryDurableStorage.CorruptDurableWal` | src/storage/in-memory-durable-storage.ts:323-332 | one byte inside the durable bytes is replaced in both copies; for an offset outside no byte changes, only an empty entry may be created |
| `DurableStorage.InMemoryDurableStorage.WalState` | src/storage/in-memory-durable-storage.ts:338-349 | the entry of a document, created empty on first use |
| `DurableStorage.RunsStayCoherent` | src/storage/in-memory-durable-storage.ts:93-310 | in every run the durable WAL is a prefix of the volatile one, synced marks belong to temporaries, and every manifest has a positive generation and an existing snapshot |
| `DurableStorage.GenerationCountsSwitches` | src/storage/in-memory-durable-storage.ts:254-298 | the generation of a document is the number of its successful switches so far |
| `DurableStorage.StorageKeyInjective` | src/storage/in-memory-durable-storage.ts:419-421 | documents with NUL-free URIs never share a storage key |
| `SnapshotStore.Commit` | src/storage/snapshot-store.ts:127-137 | run alone, the commit is its six awaits one after the other, ending in the first failure |
| `CommitOutcome.CommitSucceedsIff` | src/storage/snapshot-store.ts:127-217 | run alone, with any codec and any outcome of the six waits: success if and only if no wait fails, the input is valid, its bytes read back and the manifest may advance; success stores the bytes, removes the temporary and raises the generation by one, and a failure leaves all manifests as they were |
| `SnapshotStore.PersistSnapshot` | src/storage/snapshot-store.ts:139-172 | write, sync, check and rename, stopping at the first failure |
| `SnapshotStore.SwitchManifest` | src/storage/snapshot-store.ts:174-217 | read, validate the advance, and switch with the generation that was read |
| `SnapshotStore.ValidateTemporary` | src/storage/snapshot-store.ts:276-308 | the temporary must hold the very bytes written and decode to the committed identity |
| `SnapshotStore.ReadLatest` | src/storage/snapshot-store.ts:219-274 | run alone, a manifest read followed by the checked snapshot read |
| `SnapshotStore.EqualBytes` | src/storage/snapshot-store.ts:652-662 | the byte loop decides equality |
| `SnapshotCodec.Encode` | src/storage/snapshot-store.ts:40-49 | the UTF-8 bytes of the canonical JSON text |
| `SnapshotCodec.Decode` | src/storage/snapshot-store.ts:51-64 | strict UTF-8, then JSON |
| `SnapshotCodec.SnapshotRoundTrip` | src/storage/snapshot-store.ts:33-65 | a stored snapshot is read back as the same JSON value |
| `SnapshotCodec.SameBytesIff` | src/storage/snapshot-store.ts:40-49 | two snapshots are stored as the same bytes exactly when they are the same JSON value |
| `ManifestLinearity.ManifestsAreLinear` | src/storage/snapshot-store.ts:174-217 | under every interleaving of commits of any revisions, crashes and any other storage operations but switches from elsewhere: between any two moments no generation or sequence falls, one generation is one manifest, one sequence is one revision identity, and no snapshot disappears |
| `ManifestLinearity.GenerationsRiseByOne` | src/storage/in-memory-durable-storage.ts:254-298 | a manifest changes only by the switch of one commit, which raises the generation by exactly one and installs its own revision |
| `ManifestLinearity.CommittedStays` | src/storage/snapshot-store.ts:127-137 | the manifest that a commit reported is its own, and the current one is never older |
| `SnapshotReads.ReadLatestNeverCorrupt` | src/storage/snapshot-store.ts:219-274 | if no two commits of the document give one revision id different document hashes: a manifest read at any moment and its snapshot read at any later one give a snapshot of exactly that revision, never a corruption error |
| `SnapshotReads.SecondCommitOfRevision` | src/storage/snapshot-store.ts:127-217 | why this is needed: a second commit of the current revision id, running alone, leaves the document readable if and only if it brings the same document hash, or a later sequence while the generation can still be raised; otherwise it is refused, after its snapshot has replaced the good one |
| `SnapshotReads.ActionKeepsInvariant` | src/storage/snapshot-store.ts:139-217 | each await, log operation and crash keeps every stored snapshot of the document one that was committed for its key, and its manifest backed by a snapshot |
| `Sha256.Sha256Bytes` | src/base/hashing/portable-sha-256.ts:437-453 | equals SHA-256 as sections 5.1.1 and 6.2.2 of FIPS 180-4 define it, for every message below 2^50 bytes |
| `Sha256Padding.PaddedIff` | src/base/hashing/portable-sha-256.ts:443-450 | below 2^64 bits the padded message is the only one that has the bit 1, fewest zeros and the bit length in the last eight bytes of whole blocks |
| `Sha256Example.DigestOfAbc` | src/base/hashing/portable-sha-256.ts:437-453 | the digest of "abc" is the published one, all 64 rounds computed |
| `Sha256.CompressMessage` | src/base/hashing/portable-sha-256.ts:437-452 | whole blocks in place and a padded tail give the hash value of the padded message |
| `Sha256.CompressBlocks` | src/base/hashing/portable-sha-256.ts:455-549 | the block loop is the iteration of the standard's compression |
| `Sha256.ReadRounds` | src/base/hashing/portable-sha-256.ts:479-503 | the first sixteen rounds, with the words of the block in their slots |
| `Sha256.ScheduleRounds` | src/base/hashing/portable-sha-256.ts:504-530 | the other forty-eight rounds, each word computed in place from four slots |
| `Sha256.ReadWordInto` | src/base/hashing/portable-sha-256.ts:480-487 | the big-endian word read is word t of the schedule |
| `Sha256.ComputeWord` | src/base/hashing/portable-sha-256.ts:505-514 | the word computed from the rolling array is word t of the 64-word schedule |
| `Sha256.RollingNext` | src/base/hashing/portable-sha-256.ts:505-513 | slots t, t+1, t+9 and t+14 modulo 16 hold words t-16, t-15, t-7 and t-2 |
| `Sha256.BuildTail` | src/base/hashing/portable-sha-256.ts:443-450 | the one or two last blocks of the padded message |
| `Sha256.StartTail` | src/base/hashing/portable-sha-256.ts:443-446 | the rest of the message, the bit 1 and zeros |
| `Sha256.StateToBytes` | src/base/hashing/portable-sha-256.ts:552-558 | the eight words in big-endian order |
| `Sha256.WriteWord` | src/base/hashing/portable-sha-256.ts:560-565 | four big-endian bytes at the offset, the rest untouched |
| `Sha256Words.OneRound` | src/base/hashing/portable-sha-256.ts:488-502 | the round with the shorter choice and majority is the round of the standard |
| `Sha256Words.ChoiceIsCh` | src/base/hashing/portable-sha-256.ts:489 | the rewritten choice is Ch |
| `Sha256Words.MajorityIsMaj` | src/base/hashing/portable-sha-256.ts:492 | the rewritten majority is Maj |
| `TrustedUtf8Cache.TrustedTexts.Create` | src/base/hashing/portable-sha-256.ts:138-140 | of any text: the new handle keeps the text and its UTF-8 bytes, and every handle stays exact and certified |
| `TrustedUtf8Cache.TrustedTexts.Install` | src/base/hashing/portable-sha-256.ts:361-371 | a fresh handle with both lengths |
| `TrustedUtf8Cache.TrustedTexts.Patch` | src/base/hashing/portable-sha-256.ts:147-212 | refused patches change nothing; an accepted one issues a fresh handle with the patched text, bytes, reports and ranges; all handles stay exact and certified if and only if the patch joins cleanly, as every patch of well-formed text does |
| `TrustedUtf8Cache.TrustedTexts.HashTrusted` | src/base/hashing/portable-sha-256.ts:219-242 | a known handle gives the same hash text and preimage as `HashPreimage.HashCanonicalJsonText` gives for its whole text, an unknown one nothing |
| `HashPreimage.HashCanonicalJsonText` | src/base/hashing/portable-sha-256.ts:114-131 | the hash text is "sha256:" and the hexadecimal SHA-256 of the encoded preimage, whichever way the preimage is encoded |
| `HashPreimage.EncodeUtf8ForHash` | src/base/hashing/portable-sha-256.ts:256-265 | the short buffer with its fallback gives what encoding the text gives |
| `HashPreimage.PreimageBytesIff` | src/base/hashing/hash-preimage.ts:45-71 | two payloads are hashed as the same bytes if and only if they are the same JSON value in the same domain |
| `HashPreimage.PreimageInjective` | src/base/hashing/hash-preimage.ts:45-71 | domain and text can be read back from the preimage, for any text |
| `PreimageFields.FiveFields` | src/base/hashing/hash-preimage.ts:45-71 | the preimage of a payload splits at NUL into "NIRECO", "HASH", "V1", the domain and the canonical JSON: no field holds a separator |
| `HashPreimage.SameHashIff` | src/base/hashing/portable-sha-256.ts:567-569 | two hash texts are equal if and only if the digests of the preimages are |
| `HashPreimage.HashIsAccepted` | src/base/hashing/portable-sha-256.ts:232-235 | the parser of content hashes accepts every hash text, so the exception is never thrown |
| `TrustedUtf8Cache.BuildPatched` | src/base/hashing/portable-sha-256.ts:161-206 | text parts, bytes, reports and ranges of the patch; the preallocated bytes are filled exactly |
| `TrustedUtf8Cache.PrepareReplacements` | src/base/hashing/portable-sha-256.ts:278-320 | prepared replacements in order, or a refusal; the length computed ahead |
| `TrustedUtf8Cache.PrepareOne` | src/base/hashing/portable-sha-256.ts:288-315 | one replacement is checked and its byte range resolved |
| `TrustedUtf8Cache.CopyInto` | src/base/hashing/portable-sha-256.ts:182-185 | the bytes stand behind what was copied before |
| `TrustedUtf8.BytesEqualAt` | src/base/hashing/portable-sha-256.ts:425-435 | the byte loop decides whether the bytes stand at the offset |
| `TrustedUtf8.PatchExact` | src/base/hashing/portable-sha-256.ts:147-212 | on well-formed text every accepted patch gives exactly the encoding of the patched text, which is well-formed again |
| `TrustedUtf8.PatchExactIff` | src/base/hashing/portable-sha-256.ts:147-212 | on any text the patched bytes are the encoding of the patched text if and only if no cut between kept text and replacement joins a high surrogate to a low one, the cuts being read off the text and the offsets and texts of the replacements |
| `TrustedUtf8Cache.LoneSurrogatesBreakThePatch` | src/base/hashing/portable-sha-256.ts:142-146 | deleting the letter between a lone high and a lone low surrogate is accepted and leaves wrong bytes |
| `TrustedUtf8Cache.AcceptedIff` | src/base/hashing/portable-sha-256.ts:278-350 | a replacement list is accepted if and only if each replacement is valid in order and its supplied offsets, if any, are certified |
| `TrustedUtf8Cache.SuppliedOffsetsAgree` | src/base/hashing/portable-sha-256.ts:340-350 | scanning instead of trusting supplied offsets prepares the same replacements |
| `TrustedUtf8Cache.NextRangeCertified` | src/base/hashing/portable-sha-256.ts:187-199 | each range that a clean patch of any text certifies holds of the patched text |
| `PatchReports.ReportsAreTrue` | src/base/hashing/portable-sha-256.ts:174-199 | each report of a clean patch is true: the patched text holds the replacement where the lengths of the earlier ones put it, the reported bounds are the UTF-8 offsets of its ends in the source and in the patched text, and the new range is certified |
| `TrustedUtf8Cache.PatchKeepsExact` | src/base/hashing/portable-sha-256.ts:147-212 | a clean patch of any text leaves bytes and ranges exact, so that the condition carries along a run of patches |
| `TrustedUtf8Cache.BytesBeforeLength` | src/base/hashing/portable-sha-256.ts:288-314 | the length computed ahead is the number of bytes copied |
| `TrustedUtf8.SoundResolved` | src/base/hashing/portable-sha-256.ts:322-359 | the resolved start is the UTF-8 offset of the UTF-16 offset, supplied or scanned |
| `TrustedUtf8.RangeKeyInjective` | src/base/hashing/portable-sha-256.ts:399-406 | equal range keys are equal ranges |
| `TextEncoder.PiecewiseExactIff` | src/base/hashing/portable-sha-256.ts:164-206 | encoding piece by piece is encoding the whole if and only if every join is clean |
| `TextEncoder.UncleanJoin` | src/base/hashing/portable-sha-256.ts:390-397 | joining a lone high to a lone low surrogate makes the encoding two bytes shorter |
| `TextEncoder.SliceEncoded` | src/base/hashing/portable-sha-256.ts:344-350 | between two scalar boundaries the bytes of a text are the encoding of what stands there |
| `CanonicalJson.SerializeValue` | src/base/serialization/canonical-json.ts:46-105 | on trees: the case analysis of the printer, recursion and loops included |
| `CanonicalJson.SerializeArray` | src/base/serialization/canonical-json.ts:107-148 | on trees: the item loop, ending in the first failure |
| `CanonicalJson.SerializeObject` | src/base/serialization/canonical-json.ts:150-206 | on trees: the loop over the sorted keys, ending in the first failure |
| `JsonGraph.PrintsItsTree` | src/base/serialization/canonical-json.ts:37-206 | an object graph, with shared and cyclic objects, prototypes, descriptors and holes, has a text if and only if it unfolds to a finite tree that has this text |
| `JsonGraph.CyclesAreRefused` | src/base/serialization/canonical-json.ts:91-104 | a value that leads to an object containing itself is refused, and cyclic-value is reported only for such a value, never for one that is merely shared |
| `JsonGraph.Printer.SerializeValue` | src/base/serialization/canonical-json.ts:46-105 | the printer with its set of active objects, which is what it was when the call returns |
| `JsonGraph.Printer.SerializeNode` | src/base/serialization/canonical-json.ts:107-206 | the checks in source order, then the values in printing order |
| `JsonGraph.Printer.SerializeEntries` | src/base/serialization/canonical-json.ts:132-143 | the loop over items or sorted keys, ending in the first failure |
| `JsonGraph.CheckNode` | src/base/serialization/canonical-json.ts:106-176 | prototype, holes, descriptors, other keys, symbol keys and ill-formed keys: the first failure in source order, or none |
| `JsonGraph.SortMapped` | src/base/serialization/canonical-json.ts:178 | sorting looks at the keys only |
| `CanonicalJson.SerializesExactly` | src/base/serialization/canonical-json.ts:46-206 | a value has a text if and only if its strings are well-formed, its numbers finite and its depth within the limit |
| `CodePointOrder.CompareUnicodeCodePoints` | src/base/serialization/canonical-json.ts:220-233 | the sign of the result is the code-point order, and zero means equal |
| `CodePointOrder.BeforeIsTotal` | src/base/serialization/canonical-json.ts:220-233 | code-point order is total and irreflexive |
| `Utf8Order.BeforeIff` | src/base/serialization/canonical-json.ts:220-233 | it is the lexicographic order of the code points |
| `Utf8Order.BeforeIsByteOrder` | src/base/serialization/canonical-json.ts:220-233 | and that of the UTF-8 bytes |
| `CodePointOrder.BeforeIsTransitive` | src/base/serialization/canonical-json.ts:220-233 | code-point order is transitive |
| `CodePointOrder.SortAscending` | src/base/serialization/canonical-json.ts:178 | distinct keys come out in strictly ascending order |
| `CodePointOrder.AscendingUnique` | src/base/serialization/canonical-json.ts:178 | insertion order never matters: there is one ascending order of a set of keys |
| `CodePointOrder.IsWellFormedUnicodeString` | src/base/serialization/canonical-json.ts:235-249 | the scan over code units finds a lone surrogate if and only if there is one |
| `JsonCanonical.ParseSerialized` | src/base/serialization/canonical-json.ts:37-44 | a JSON parser recovers the value, with its keys in canonical order, from the text |
| `JsonCanonical.CanonicalForm` | src/base/serialization/canonical-json.ts:37-206 | two serializable values have one text if and only if they are equal as JSON values, objects as finite maps |
| `JsonCompact.EscapeIsShortest` | src/base/serialization/canonical-json.ts:59-67 | no text that reads as a code unit is shorter than the one written, and no other of its length is free of upper-case digits |
| `JsonCompact.ArrayLength` | src/base/serialization/canonical-json.ts:107-148 | an array is written as its items, one character between two and two brackets, and nothing more |
| `JsonCompact.ObjectLength` | src/base/serialization/canonical-json.ts:150-206 | an object likewise, a field being its key in quotes, one character and its value |
| `JsonCanonical.NormalIsSame` | src/base/serialization/canonical-json.ts:150-206 | reordering keys does not change the JSON value |
| `JsonCanonical.NormalOnce` | src/base/serialization/canonical-json.ts:150-206 | canonical key order is reached in one step |
| `JsonCanonical.TextPlain` | src/base/serialization/canonical-json.ts:46-206 | the text holds no control character and no lone surrogate |
| `DependencyClosure.ComputeClosure` | src/proposal/semantic-diff.ts:103-134 | succeeds if and only if everything requested and reachable exists and no reachable group is on a cycle; the result is exactly the reachable groups in original order, and an error names a missing requested group, a reachable missing one or a reachable one on a real cycle |
| `DependencyClosure.Search.Include` | src/proposal/semantic-diff.ts:136-180 | the recursion ends, keeps the included set closed and acyclic, adds only what is reachable, and fails only with a real fault |
| `DependencyClosure.GroupById` | src/proposal/semantic-diff.ts:107 | of two groups with one id the later wins |
| `DependencyClosure.FilterIds` | src/proposal/semantic-diff.ts:130-133 | the ids of the set in the order of the groups |
| `DependencyClosure.IdsInOrder` | src/proposal/semantic-diff.ts:130-133 | with distinct ids each group of the set appears at its rank among them |
| `DependencyClosure.NoCycleAbove` | src/proposal/semantic-diff.ts:168-173 | a group all of whose dependencies are included is on no cycle |
| `DependencyClosure.CycleOnStack` | src/proposal/semantic-diff.ts:149-155 | meeting a group that is being visited closes a real cycle |
| `AuthorityModel.HeadNeverMovesBackward` | src/workspace/authority-backed-model.ts:253-340 | under every interleaving of authority advances, commit results, notifications, refreshes and disposal the head only moves forward in the history, and its snapshot is present until the disposal has finished |
| `AuthorityModel.Converges` | src/workspace/authority-backed-model.ts:253-340 | once a notification has arrived after the last advance and the queue has run empty without a failed refresh, the head is the authority's head |
| `AuthorityModel.OwnCommitsAreFollowed` | src/workspace/authority-backed-model.ts:266-283 | while only the model itself commits, each install moves its head to the commit that came back, without any notification |
| `AuthorityModel.OwnCommitsConverge` | src/workspace/authority-backed-model.ts:266-283 | when all its commits are back and installed, its head is the head of the authority and no reconciliation is pending |
| `AuthorityModel.ReconciliationConverges` | src/workspace/authority-backed-model.ts:266-289 | a reconciliation that was asked for is enough: once the queue has run empty, the head is the head of the authority |
| `AuthorityModel.ActionKeepsInvariant` | src/workspace/authority-backed-model.ts:257-340 | no single step moves the head backward, loses its snapshot or queues a task that could |
| `AuthorityModel.CalmKeepsConverging` | src/workspace/authority-backed-model.ts:253-340 | a queued refresh is never lost: it runs, or the head is already the latest |
| `AuthorityModel.AuthorityBackedNirecoModel.InstallCommitResult` | src/workspace/authority-backed-model.ts:266-283 | on the fields: when the head was the base of the commit or is the committed revision, it is the committed revision afterwards, with its snapshot, and nothing is asked for; otherwise the head stays and a reconciliation is asked for; after disposal nothing changes |
| `AuthorityModel.AuthorityBackedNirecoModel.FinishRefresh` | src/workspace/authority-backed-model.ts:300-327 | on the fields: the refresh succeeds exactly when the model is live and the answer has the announced revision and the schema, and then installs head and snapshot together; otherwise nothing changes |
| `AuthorityModel.AuthorityBackedNirecoModel.QueueAuthorityRefresh` | src/workspace/authority-backed-model.ts:253-255 | a refresh joins the end of the queue |
| `AuthorityModel.AuthorityBackedNirecoModel.SynchronizeWithAuthority` | src/workspace/authority-backed-model.ts:225-234 | after disposal nothing is queued; otherwise a refresh joins the end of the queue |
| `AuthorityModel.TasksRunInOrder` | src/workspace/authority-backed-model.ts:257-264 | over every run the tasks queued so far are exactly the finished ones followed by those still in the queue, in order: none is lost, doubled or overtaken |
| `AuthorityModel.AuthorityBackedNirecoModel.EnqueueStateTask` | src/workspace/authority-backed-model.ts:257-264 | a task joins the end of the queue |
| `AuthorityModel.AuthorityBackedNirecoModel.ScheduleAuthorityReconciliation` | src/workspace/authority-backed-model.ts:285-289 | a pending reconciliation queues a refresh unless the model is disposed |
| `AuthorityModel.AuthorityBackedNirecoModel.GetSnapshot` | src/workspace/authority-backed-model.ts:69-83 | the snapshot of a known revision until disposal |
| `AuthorityModel.AuthorityBackedNirecoModel.Dispose` | src/workspace/authority-backed-model.ts:236-244 | only the disposed flag changes |
| `AuthorityModel.AuthorityBackedNirecoModel.FinishDispose` | src/workspace/authority-backed-model.ts:246-251 | once the refresh chain has run empty, the snapshots are dropped |
| `SnapshotCache.SnapshotCaches.Install` | src/model/document-snapshot-cache.ts:62-106 | a verified snapshot is returned as it is; a refused one changes nothing; an accepted one gets a fresh cache and loses its provisional entry |
| `SnapshotCache.SnapshotCaches.InstallCache` | src/model/document-snapshot-cache.ts:272-279 | the cache replaces whatever its snapshot had, and the counters follow |
| `SnapshotCache.SnapshotCaches.Stage` | src/model/document-snapshot-cache.ts:154-195 | staged exactly from a verified source to an unverified snapshot; the source then has this one provisional entry |
| `SnapshotCache.SnapshotCaches.Activate` | src/model/document-snapshot-cache.ts:201-219 | succeeds exactly for the staged pair; the derived entry replaces its source and the entry count stays |
| `SnapshotCache.SnapshotCaches.Retire` | src/model/document-snapshot-cache.ts:121-139 | the snapshot and what was derived from it are removed, and nothing else |
| `SnapshotCache.SnapshotCaches.RetireProvisional` | src/model/document-snapshot-cache.ts:221-232 | one provisional entry goes, with its link and its identity |
| `SnapshotCache.SnapshotCaches.Get` | src/model/document-snapshot-cache.ts:109-114 | a cache is given out only if it is trusted |
| `SnapshotCache.InstalledValid` | src/model/document-snapshot-cache.ts:272-279 | installing keeps the invariant: disjoint maps, trusted identities exactly the caches in them, mutually inverse links, verified sources, exact counters |
| `SnapshotCache.StagedValid` | src/model/document-snapshot-cache.ts:172-194 | staging keeps the invariant |
| `SnapshotCache.ActivatedValid` | src/model/document-snapshot-cache.ts:205-218 | activating keeps the invariant and the entry count |
| `SnapshotCache.RetiredValid` | src/model/document-snapshot-cache.ts:121-139 | retiring keeps the invariant, after breaking it in between |
| `Freeze.DeepFreeze` | src/base/immutability/deep-freeze.ts:1-4 | on any object graph, cyclic or not: ends, and exactly the reachable objects and those frozen before are frozen |
| `Freeze.Freezer.FreezeValue` | src/base/immutability/deep-freeze.ts:6-16 | freezes what it newly visits and nothing else, and has visited the children of each |
| `Freeze.IsDeepFrozenInertData` | src/model/document-snapshot-cache.ts:281-309 | the worklist ends, and returns true if and only if every reachable object is frozen and inert |
| `Freeze.PushProperties` | src/model/document-snapshot-cache.ts:295-303 | every property is inert, and the objects they hold are put on the worklist |
| `Freeze.FreezeAndInspect` | src/model/document-snapshot-cache.ts:57-77 | after deep freezing, the inspection passes if and only if every reachable object is inert |
| `ResourceUri.CanonicalizationIsIdempotent` | src/base/uri/resource-uri.ts:65-119 | every accepted input has an output that is accepted, maps to itself and is no longer than the input |
| `ResourceNames.SameCanonicalIff` | src/base/uri/resource-uri.ts:65-119 | two accepted URIs have one canonical form if and only if they name the same: scheme and host up to case, the port as a number without the default of the scheme, the other parts up to escapes, and the path up to dot segments and the slash at the end of a logical one |
| `ResourceNames.NameIsKept` | src/base/uri/resource-uri.ts:65-119 | the canonical form names what the input names |
| `ResourceNames.PartsAreKept` | src/base/uri/resource-uri.ts:194-360 | part by part: there is a port exactly when the input has one that is neither 80 for http nor 443 for https, and it is the same number, below 65536; scheme and host are the lower-cased ones; user info, query, fragment and opaque text stand for the same symbols |
| `ResourceNames.PathIsNamed` | src/base/uri/resource-uri.ts:474-520 | the path is what removing dot segments leaves, with normal escapes and, for nireco and comet, without the slash at its end |
| `ResourceNames.LogicalIsPlain` | src/base/uri/resource-uri.ts:522-563 | an accepted nireco or comet URI has no user info, port, query or fragment |
| `ResourceNames.AcceptedIff` | src/base/uri/resource-uri.ts:65-119 | a text is accepted if and only if its characters and length are allowed and it is the text of raw parts that are allowed |
| `ResourceNames.RefusedForFirst` | src/base/uri/resource-uri.ts:493-563 | hierarchical raw parts are refused with exactly the first reason there is: no host, user info, port, query, fragment, host, path |
| `ResourceNames.RawIsUnique` | src/base/uri/resource-uri.ts:121-440 | a text has at most one reading as raw parts |
| `ResourceNames.NormalizedKeepsSymbols` | src/base/uri/resource-uri.ts:573-608 | normalizing escapes keeps what the text stands for |
| `ResourceUri.CanonicalForm` | src/base/uri/resource-uri.ts:65-119 | every output is graphic ASCII with a lower-case scheme and host, a decimal port, no dot segment, and normal escapes in user info, path, query and fragment |
| `BracketedHosts.EscapesAreNormalIff` | src/base/uri/resource-uri.ts:243-274 | all escapes of an output are normal if and only if it has no bracketed host whose lower-cased text holds one that is not |
| `BracketedHosts.HierarchicalIsNormalIff` | src/base/uri/resource-uri.ts:194-241 | the escapes of a canonical hierarchical URI are normal if and only if those of its host are |
| `BracketedHosts.LowerCaseEscapeStays` | src/base/uri/resource-uri.ts:260 | "x://[%2F]" becomes "x://[%2f]", whose escape is not normal |
| `ResourceUri.AuthorityIsCanonical` | src/base/uri/resource-uri.ts:194-360 | what the authority parser accepts is canonical and formats to no more than it was |
| `ResourceUri.AuthorityReads` | src/base/uri/resource-uri.ts:194-360 | the formatted text of a canonical authority parses back to it |
| `ResourceUri.SuffixIsCanonical` | src/base/uri/resource-uri.ts:362-440 | normalized path, query and fragment are canonical and no longer than they were |
| `ResourceUri.SuffixReads` | src/base/uri/resource-uri.ts:362-440 | the text of canonical path, query and fragment splits and normalizes back to them |
| `ResourceUri.WithoutTrailingSlashIsCanonical` | src/base/uri/resource-uri.ts:514-563 | dropping the trailing slash of a logical path keeps it valid, and nothing more is dropped the next time |
| `PercentEncoding.NormalizePercentEncoding` | src/base/uri/resource-uri.ts:573-608 | the index loop decodes escapes of unreserved characters, raises the digits of the others and refuses malformed ones |
| `PercentEncoding.NormalizedIsNormal` | src/base/uri/resource-uri.ts:573-608 | the output has no lower-case escape and no escaped unreserved character, and is no longer than the input |
| `PercentEncoding.NormalStays` | src/base/uri/resource-uri.ts:573-608 | such text is not changed again |
| `PathSegments.RemoveDotSegments` | src/base/uri/resource-uri.ts:610-620 | the loop over the segments and the formatting of the output stack |
| `PathSegments.ApplyPathSegment` | src/base/uri/resource-uri.ts:622-641 | empty segments collapse, dot segments vanish or pop, others are pushed |
| `PathSegments.RemovePreviousPathSegment` | src/base/uri/resource-uri.ts:643-648 | trailing empty segments are popped before the segment itself |
| `PathSegments.RemovedIsRendered` | src/base/uri/resource-uri.ts:610-664 | an absolute path becomes the path of a stack without dot segments, without two empty segments in a row and with none at the front |
| `PathSegments.RemovalIsIdempotent` | src/base/uri/resource-uri.ts:610-664 | removing dot segments twice is removing them once |
| `PathSegments.RemovalIsNoLonger` | src/base/uri/resource-uri.ts:610-664 | the path never gets longer |
| `PathSegments.NoDotSegments` | src/base/uri/resource-uri.ts:610-664 | a path that removal leaves alone has no dot segment |
| `DotSegments.AgreesIff` | src/base/uri/resource-uri.ts:610-664 | on an absolute path removal does what section 5.2.4 of RFC 3986 says if and only if the result of the RFC has no empty segment at the front and no two in a row, and no double dot has removed an empty segment above a text segment that stayed |
| `DotSegments.AgreesWithoutEmptySegments` | src/base/uri/resource-uri.ts:610-664 | in particular on every absolute path without an empty segment before the last |
| `KeptSegments.AgreesIffOnSegments` | src/base/uri/resource-uri.ts:610-664 | the same condition read off the segments of the path: an empty segment that stays stands right behind a text segment that stays, unless it stays alone, and no empty segment is removed while a text segment before it stays |
| `KeptSegments.PlacesAreKept` | src/base/uri/resource-uri.ts:622-648 | the segments on the stack of the RFC are exactly those after which no point has seen as many double dots as other segments |
| `KeptSegments.SpoiltIff` | src/base/uri/resource-uri.ts:643-648 | a double dot has removed an empty segment above a text that stayed if and only if an empty segment is removed while a text segment before it stays |
| `DotSegments.RunOfSlashes` | src/base/uri/resource-uri.ts:634-641 | a concrete run of slashes that the RFC keeps |
| `DotSegments.EmptyBeforeDots` | src/base/uri/resource-uri.ts:643-648 | a concrete double dot behind an empty segment, which takes the text segment with it |
| `DotSegments.RfcOfSegments` | src/base/uri/resource-uri.ts:610-620 | the two text buffers of the RFC, on an absolute path, are a stack of segments |
| `UuidV7.RunIsMonotonic` | src/base/ids/uuid-v7-allocator.ts:97-112 | over every sequence of seeds each identifier handed out is strictly greater than all earlier ones, as bytes and as formatted text, and keeps version 7 and the variant bits |
| `UuidV7.AllocatedIsNext` | src/base/ids/uuid-v7-allocator.ts:155-165 | the next identifier is greater, its time is the later of clock and previous time, and without an advance the counter goes up by exactly one |
| `UuidV7.ExhaustedIff` | src/base/ids/uuid-v7-allocator.ts:155-165 | with a valid seed allocation fails exactly when the clock has not advanced and the 74-bit counter is 2^74-1 |
| `UuidV7.IncrementAddsOne` | src/base/ids/uuid-v7-allocator.ts:177-200 | the carry loop adds exactly one to the counter and fails only on the greatest value |
| `UuidV7.FormatIsMonotonic` | src/base/ids/uuid-v7-allocator.ts:202-208 | formatting keeps the order |
| `UuidV7.UuidV7IdAllocator.Allocate` | src/base/ids/uuid-v7-allocator.ts:97-112 | a failed seed or an exhausted counter leaves the allocator as it was; otherwise the result is the text of the next identifier, whose bytes are stored: the parser never refuses it |
| `UuidV7.FormatParses` | src/base/ids/identifiers.ts:161-221 | the text of every identifier with version and variant bits in place is accepted |
| `UuidV7.ParsesIff` | src/base/ids/identifiers.ts:42-44 | the parser of allocated identifiers accepts exactly the texts of such identifiers |
| `UuidV7.CreateBytes` | src/base/ids/uuid-v7-allocator.ts:119-132 | the time and the 74 random bits of the seed with version and variant, or the reason why the seed is refused |
| `UuidV7.CandidateField` | src/base/ids/uuid-v7-allocator.ts:119-132 | the 74-bit field is the number of the low 4 bits of byte 0, byte 1, the low 6 bits of byte 2 and bytes 3 to 9 of the seed |
| `UuidV7.FreshIdentifier` | src/base/ids/uuid-v7-allocator.ts:155-165 | the first identifier, and each one after an advance of the clock, is the time and those random bits of its seed |
| `UuidV7.FreshCollideIff` | src/base/ids/uuid-v7-allocator.ts:155-165 | two such identifiers of one time, from any two allocators, are equal if and only if those 74 bits are |
| `UuidV7.ValidTimeIff` | src/base/ids/uuid-v7-allocator.ts:134-141 | the accepted times are those that six bytes can hold |
| `UuidV7.WriteTimestamp` | src/base/ids/uuid-v7-allocator.ts:147-153 | six big-endian bytes |
| `UuidV7.CandidateTime` | src/base/ids/uuid-v7-allocator.ts:147-153 | those bytes read back as the timestamp |
| `UuidV7.CompareTimestamp` | src/base/ids/uuid-v7-allocator.ts:167-175 | positive exactly when the left time is later |
| `UuidV7.IncrementRandomField` | src/base/ids/uuid-v7-allocator.ts:177-190 | the three kinds of counter bytes are incremented with carry, from the right |
| `UuidV7.IncrementByte` | src/base/ids/uuid-v7-allocator.ts:192-200 | one byte goes up by one, or back to its least value |

## Left out

- DurableStorage.InMemoryDurableStorage: fault injection and pauses are the outcome of a wait; the two byte copies of a document
  are one value, so aliasing of byte arrays is not modelled.
- Recovery.RecoverySucceedsIff: only accepting callbacks are considered; `Recovery.ReplayMeans` is about all others.
- Recovery.ReplayRecords: replay and validation are parameters; the transaction kernel behind them is not part of this model.
- Durability.SyncedLogIsRecovered: one writer per document; recovery reads the log in one step.
- CheckpointedRecovery.CheckpointedRecoveryIsTransparent: commits of the document take states after synced records;
  `SnapshotAhead.SnapshotAheadOfLog` is about the others.
- CanonicalJson.SerializeValue: on trees only, and a number is given by the text `JSON.stringify` prints for it; shared and cyclic
  values are in `JsonGraph`.
- CanonicalJson.SerializeArray: on trees only; holes and descriptors are in `JsonGraph`.
- CanonicalJson.SerializeObject: on trees only; prototypes, descriptors and symbol keys are in `JsonGraph`.
- JsonGraph.Printer.SerializeValue: the paths of errors and exceptions from proxies (`inspection-failed`) are not modelled.
- JsonCanonical.ParseSerialized: the value a number text stands for is a parameter that must give the text back.
- WalRecord.TextRoundTrip: URI, identifier and hash formats are parameters, and so is the reading of numbers.
- SnapshotStore.Commit: actors are compared by their canonical text, and the manifest is a record of the right shape; the checks
  on property descriptors are not modelled.
- SnapshotCodec.Decode: the schema decoder that follows JSON parsing is not part of this model.
- SnapshotReads.ReadLatestNeverCorrupt: assumes a codec that keeps revision id and hash (compare
  `SnapshotCodec.SnapshotRoundTrip`) and document URIs without NUL (which `ResourceUri.CanonicalForm` gives).
- Sha256.CompressBlocks: the body that both loops repeat is a method of its own, and messages are values, not arrays.
- AuthorityModel.Converges: transaction decoding, position maps and durability queries are left out; a commit result is some
  revision of the history together with an earlier one it was based on.
- AuthorityModel.AuthorityBackedNirecoModel.FinishDispose: the wait for pending applies is not modelled; commit results may still
  arrive after it, and change nothing.
- SnapshotCache.SnapshotCaches: weak maps are maps, so nothing is collected unless it is retired.
- SnapshotCache.SnapshotCaches.Install: the checks of deep freezing, schema and hash are one parameter.
- SnapshotCache.SnapshotCaches.Stage: the checks on a derivation are one parameter.
- Freeze.DeepFreeze: a property has one value, so accessors that return something else each time are not modelled, and neither
  are proxies.
- UuidV7.UuidV7IdAllocator.Allocate: clock and entropy are the seed parameter.
- Transaction replay, the manuscript validator, the proposal state machine, the integration decoders and the model registry:
  not modelled.
