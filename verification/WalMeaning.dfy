/**
 What `decode` of `src/storage/wal-record-codec.ts` answers on any bytes: the whole frames at the front, and one
 of six things behind them.
 */
module WalMeaning {
  import opened Wrappers
  import opened Utf8
  import opened BigEndianNumbers
  import opened WalFrames
  import WalLayout

  // ---------------------------------------------------------------- what stands at an offset

  /** The number in the four bytes at an offset. */
  function NumberAt(b: Bytes, at: nat): nat
    requires at + 4 <= |b|
  {
    BigEndian(b[at..at + 4])
  }

  predicate HasRoom(b: Bytes, at: nat) { at + 8 <= |b| }

  /** A length within the limit, and that many bytes behind the header. */
  predicate Plausible<R, E>(f: Format<R, E>, b: Bytes, at: nat)
  {
    HasRoom(b, at) && NumberAt(b, at) <= f.maxPayload && at + 8 + NumberAt(b, at) <= |b|
  }

  function PayloadAt<R, E>(f: Format<R, E>, b: Bytes, at: nat): Bytes
    requires Plausible(f, b, at)
  {
    b[at + 8..at + 8 + NumberAt(b, at)]
  }

  predicate ChecksumHolds<R, E>(f: Format<R, E>, b: Bytes, at: nat)
    requires Plausible(f, b, at)
  {
    f.crc(PayloadAt(f, b, at)) == NumberAt(b, at + 4)
  }

  predicate RecordStands<R, E>(f: Format<R, E>, b: Bytes, at: nat)
  {
    Plausible(f, b, at) && ChecksumHolds(f, b, at) && f.read(PayloadAt(f, b, at)).Ok?
  }

  lemma NumberIsWord(b: Bytes, at: nat)
    requires at + 4 <= |b|
    ensures NumberAt(b, at) == ReadWord(b, at)
  {
    WalLayout.FourDigits(b[at..at + 4]);
  }

  /** The classification of the decoder, in these terms. */
  lemma FrameAtIs<R, E>(f: Format<R, E>, b: Bytes, at: nat)
    requires HasRoom(b, at)
    ensures FrameAt(f, b, at).TooLong? <==> NumberAt(b, at) > f.maxPayload
    ensures FrameAt(f, b, at).Incomplete? <==> NumberAt(b, at) <= f.maxPayload && !Plausible(f, b, at)
    ensures FrameAt(f, b, at).BadChecksum? <==> Plausible(f, b, at) && !ChecksumHolds(f, b, at)
    ensures FrameAt(f, b, at).Whole? <==> RecordStands(f, b, at)
    ensures FrameAt(f, b, at).Whole? ==> f.read(PayloadAt(f, b, at)) == Ok(FrameAt(f, b, at).record)
    ensures FrameAt(f, b, at).Unreadable? ==>
      Plausible(f, b, at) && f.read(PayloadAt(f, b, at)) == Err(FrameAt(f, b, at).error)
  {
    NumberIsWord(b, at);
    NumberIsWord(b, at + 4);
  }

  // ---------------------------------------------------------------- looking for a frame behind a tail

  /** The bytes a checksum would be taken of, at all offsets from this one on. */
  function PlausibleBytes<R, E>(f: Format<R, E>, b: Bytes, at: nat): nat
    decreases |b| - at
  {
    if !HasRoom(b, at) then 0
    else (if Plausible(f, b, at) then NumberAt(b, at) else 0) + PlausibleBytes(f, b, at + 1)
  }

  predicate NoRecordFrom<R, E>(f: Format<R, E>, b: Bytes, at: nat)
  {
    forall i :: at <= i < |b| ==> !RecordStands(f, b, i)
  }

  /** The search is within its budgets, 4096 offsets and 1 MiB, and finds nothing. */
  predicate NothingBehind<R, E>(f: Format<R, E>, b: Bytes, at: nat)
  {
    |b| - at <= 4096 + 7 && PlausibleBytes(f, b, at) <= 1024 * 1024 && NoRecordFrom(f, b, at)
  }

  lemma {:induction false} ScanFindsNothingIff<R, E>(f: Format<R, E>, b: Bytes, at: nat, candidates: nat, summed: nat)
    requires candidates <= MAX_CANDIDATES && summed <= MAX_CHECKSUM_BYTES
    ensures Scan(f, b, at, candidates, summed) == NotFound <==>
      |b| - at - 7 <= MAX_CANDIDATES - candidates &&
      summed + PlausibleBytes(f, b, at) <= MAX_CHECKSUM_BYTES && NoRecordFrom(f, b, at)
    decreases |b| - at
  {
    hide RecordStands, Plausible, ChecksumHolds;
    if !HasRoom(b, at) {
      NoRoomNoRecord(f, b, at);
    } else if candidates < MAX_CANDIDATES {
      FrameAtIs(f, b, at);
      NumberIsWord(b, at);
      OneOffset(f, b, at);
      PlausibleIs(f, b, at);
      var next := summed + if Plausible(f, b, at) then NumberAt(b, at) else 0;
      if next <= MAX_CHECKSUM_BYTES { ScanFindsNothingIff(f, b, at + 1, candidates + 1, next); }
    }
  }

  lemma NoRoomNoRecord<R, E>(f: Format<R, E>, b: Bytes, at: nat)
    requires !HasRoom(b, at)
    ensures NoRecordFrom(f, b, at)
  {
  }

  lemma OneOffset<R, E>(f: Format<R, E>, b: Bytes, at: nat)
    requires HasRoom(b, at)
    ensures NoRecordFrom(f, b, at) <==> !RecordStands(f, b, at) && NoRecordFrom(f, b, at + 1)
  {
  }

  lemma PlausibleIs<R, E>(f: Format<R, E>, b: Bytes, at: nat)
    requires HasRoom(b, at)
    ensures Plausible(f, b, at) <==> !FrameAt(f, b, at).TooLong? && !FrameAt(f, b, at).Incomplete?
  {
    FrameAtIs(f, b, at);
  }

  // ---------------------------------------------------------------- the answer

  /** What is behind the whole frames, and what is said of it. */
  ghost predicate Tells<R, E>(f: Format<R, E>, b: Bytes, at: nat, rs: seq<R>, d: DecodeResult<R, E>)
  {
    if at == |b| then d == Complete(rs, at, false)
    else if !HasRoom(b, at) then d == Complete(rs, at, true)
    else if NumberAt(b, at) > f.maxPayload then d == Corrupt(rs, at, InvalidLength)
    else if !Plausible(f, b, at) then
      d == if NothingBehind(f, b, at + 8) then Complete(rs, at, true) else Corrupt(rs, at, InvalidLength)
    else if !ChecksumHolds(f, b, at) then d == Corrupt(rs, at, ChecksumMismatch)
    else
      var read := f.read(PayloadAt(f, b, at));
      read.Err? && d == Corrupt(rs, at, BadPayload(read.error))
  }

  /** Whole frames with these records, and the answer on what is behind them. */
  ghost predicate Explains<R, E>(f: Format<R, E>, b: Bytes, ps: seq<Bytes>, rs: seq<R>, d: DecodeResult<R, E>)
  {
    Readable(f, ps, rs) && FrameBytes(f, ps) <= b && Tells(f, b, |FrameBytes(f, ps)|, rs, d)
  }

  lemma TellsStop<R, E>(f: Format<R, E>, b: Bytes, at: nat, rs: seq<R>)
    requires at <= |b| && (HasRoom(b, at) ==> !FrameAt(f, b, at).Whole?)
    ensures forall d :: Tells(f, b, at, rs, d) <==> d == DecodeFrom(f, b, at, rs)
  {
    hide Plausible, ChecksumHolds, PlausibleBytes, NoRecordFrom;
    if HasRoom(b, at) {
      FrameAtIs(f, b, at);
      ScanFindsNothingIff(f, b, at + 8, 0, 0);
    }
  }

  lemma {:induction false} DecodeFromStops<R, E>(f: Format<R, E>, b: Bytes, at: nat, rs: seq<R>)
    requires at <= |b|
    ensures var d := DecodeFrom(f, b, at, rs);
            at <= d.validByteLength <= |b| && DecodeFrom(f, b, d.validByteLength, d.records) == d &&
            (HasRoom(b, d.validByteLength) ==> !FrameAt(f, b, d.validByteLength).Whole?)
    decreases |b| - at
  {
    if HasRoom(b, at) && FrameAt(f, b, at).Whole? {
      DecodeFromStops(f, b, FrameEnd(b, at), rs + [FrameAt(f, b, at).record]);
    }
  }

  /** The answer of `decode` is explained by the bytes, and no other is. */
  lemma DecodeExplained<R, E>(f: Format<R, E>, b: Bytes, d: DecodeResult<R, E>)
    requires Sound(f)
    ensures d == DecodeFrames(f, b) <==> exists ps, rs :: Explains(f, b, ps, rs, d)
  {
    hide Tells, FrameAt;
    var answer := DecodeFrames(f, b);
    DecodeFromStops(f, b, 0, []);
    var qs := DecodedPrefix(f, b);
    TellsStop(f, b, answer.validByteLength, answer.records);
    if d == answer { assert Explains(f, b, qs, answer.records, d); }
    forall ps, rs | Explains(f, b, ps, rs, d) ensures d == answer {
      DecodePassesFrames(f, b, ps, rs);
      TellsNoRecord(f, b, |FrameBytes(f, ps)|, rs, d);
      TellsStop(f, b, |FrameBytes(f, ps)|, rs);
    }
  }

  lemma TellsNoRecord<R, E>(f: Format<R, E>, b: Bytes, at: nat, rs: seq<R>, d: DecodeResult<R, E>)
    requires at <= |b| && Tells(f, b, at, rs, d)
    ensures HasRoom(b, at) ==> !FrameAt(f, b, at).Whole?
  {
    if HasRoom(b, at) { FrameAtIs(f, b, at); }
  }
}
