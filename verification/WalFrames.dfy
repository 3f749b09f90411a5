/**
 The framing layer of `src/storage/wal-record-codec.ts`: a frame is the payload length and a
 checksum as big-endian words, followed by the payload.  `decode` classifies arbitrary bytes as
 whole frames, whole frames before a torn tail, or corruption at an offset.

 The layer knows the checksum and the payload reader only as functions, so its theorems are
 about framing alone; `WalCodec` supplies CRC-32 and the commit-record payload.
 */
module WalFrames {
  import opened Wrappers
  import opened Utf8

  const HEADER := 8
  const MAX_CANDIDATES := 4096
  const MAX_CHECKSUM_BYTES := 1024 * 1024

  datatype Format<R, E> = Format(crc: Bytes -> nat, read: Bytes -> Result<R, E>, maxPayload: nat)

  /** Lengths and checksums fit their 32-bit header words. */
  ghost predicate Sound<R, E>(f: Format<R, E>)
  {
    f.maxPayload < 0x1_0000_0000 && forall p: Bytes :: f.crc(p) < 0x1_0000_0000
  }

  // ---------------------------------------------------------------- big-endian words

  /** `writeUint32BigEndian`: the low 32 bits of the value. */
  function Word(n: nat): (b: Bytes)
    ensures |b| == 4
  {
    [n / 0x100_0000 % 0x100, n / 0x1_0000 % 0x100, n / 0x100 % 0x100, n % 0x100]
  }

  function FromOctets(a: int, b: int, c: int, d: int): int { a * 0x100_0000 + b * 0x1_0000 + c * 0x100 + d }

  /** `readUint32BigEndian` */
  function ReadWord(b: Bytes, offset: nat): (n: nat)
    requires offset + 4 <= |b|
    ensures n < 0x1_0000_0000
  {
    FromOctets(b[offset], b[offset + 1], b[offset + 2], b[offset + 3])
  }

  lemma LastOctet(high: int, low: int)
    requires 0 <= low < 0x100
    ensures (high * 0x100 + low) / 0x100 == high && (high * 0x100 + low) % 0x100 == low
  {
  }

  lemma Octets(a: Byte, b: Byte, c: Byte, d: Byte)
    ensures Word(FromOctets(a, b, c, d)) == [a, b, c, d]
  {
    var n := FromOctets(a, b, c, d);
    var ab := (a as int) * 0x100 + b as int;
    LastOctet(ab * 0x100 + c as int, d);
    LastOctet(ab, c);
    LastOctet(a, b);
    assert n / 0x100 / 0x100 == n / 0x1_0000 && n / 0x1_0000 / 0x100 == n / 0x100_0000;
  }

  lemma WordOfRead(b: Bytes, offset: nat)
    requires offset + 4 <= |b|
    ensures Word(ReadWord(b, offset)) == b[offset..offset + 4]
  {
    Octets(b[offset], b[offset + 1], b[offset + 2], b[offset + 3]);
  }

  lemma SameWord(b: Bytes, d: Bytes, offset: nat)
    requires offset + 4 <= |b| && offset + 4 <= |d| && ReadWord(b, offset) == ReadWord(d, offset)
    ensures forall i :: offset <= i < offset + 4 ==> b[i] == d[i]
  {
    Octets(b[offset], b[offset + 1], b[offset + 2], b[offset + 3]);
    Octets(d[offset], d[offset + 1], d[offset + 2], d[offset + 3]);
  }

  lemma ReadOfWord(n: nat)
    requires n < 0x1_0000_0000
    ensures ReadWord(Word(n), 0) == n
  {
    var a, b, c, d := n / 0x100_0000 % 0x100, n / 0x1_0000 % 0x100, n / 0x100 % 0x100, n % 0x100;
    assert n / 0x100 == n / 0x1_0000 * 0x100 + c;
    assert n / 0x1_0000 == n / 0x100_0000 * 0x100 + b;
    assert n == n / 0x100 * 0x100 + d;
  }

  // ---------------------------------------------------------------- frames

  function Framed<R, E>(f: Format<R, E>, payload: Bytes): (b: Bytes)
    ensures |b| == HEADER + |payload|
  {
    Word(|payload|) + Word(f.crc(payload)) + payload
  }

  /** What stands at an offset that leaves room for a header. */
  datatype Frame<R, E> = TooLong | Incomplete | BadChecksum | Unreadable(error: E) | Whole(record: R)

  function FrameEnd(b: Bytes, at: nat): (end: nat)
    requires at + HEADER <= |b|
  {
    at + HEADER + ReadWord(b, at)
  }

  function FrameAt<R, E>(f: Format<R, E>, b: Bytes, at: nat): Frame<R, E>
    requires at + HEADER <= |b|
  {
    if ReadWord(b, at) > f.maxPayload then TooLong
    else if FrameEnd(b, at) > |b| then Incomplete
    else
      var payload := b[at + HEADER..FrameEnd(b, at)];
      if f.crc(payload) != ReadWord(b, at + 4) then BadChecksum
      else match f.read(payload)
        case Err(e) => Unreadable(e)
        case Ok(r) => Whole(r)
  }

  // ---------------------------------------------------------------- decode

  datatype Resync = CompleteFrame | NotFound | BudgetExceeded

  /** `findCompleteCanonicalFrameAfter` from one candidate offset on. */
  function Scan<R, E>(f: Format<R, E>, b: Bytes, at: nat, candidates: nat, summed: nat): Resync
    decreases |b| - at
  {
    if at + HEADER > |b| then NotFound
    else if candidates + 1 > MAX_CANDIDATES then BudgetExceeded
    else match FrameAt(f, b, at)
      case TooLong => Scan(f, b, at + 1, candidates + 1, summed)
      case Incomplete => Scan(f, b, at + 1, candidates + 1, summed)
      case frame =>
        if summed + ReadWord(b, at) > MAX_CHECKSUM_BYTES then BudgetExceeded
        else if frame.Whole? then CompleteFrame
        else Scan(f, b, at + 1, candidates + 1, summed + ReadWord(b, at))
  }

  method FindCompleteCanonicalFrameAfter<R, E>(f: Format<R, E>, b: Bytes, start: nat) returns (r: Resync)
    ensures r == Scan(f, b, start, 0, 0)
  {
    var candidateCount: nat, checksumByteCount: nat, at := 0, 0, start;
    while at + HEADER <= |b|
      invariant Scan(f, b, start, 0, 0) == Scan(f, b, at, candidateCount, checksumByteCount)
      decreases |b| - at
    {
      candidateCount := candidateCount + 1;
      if candidateCount > MAX_CANDIDATES {
        return BudgetExceeded;
      }
      var frame := FrameAt(f, b, at);
      if !frame.TooLong? && !frame.Incomplete? {
        checksumByteCount := checksumByteCount + ReadWord(b, at);
        if checksumByteCount > MAX_CHECKSUM_BYTES {
          return BudgetExceeded;
        }
        if frame.Whole? {
          return CompleteFrame;
        }
      }
      at := at + 1;
    }
    return NotFound;
  }

  datatype Corruption<E> = InvalidLength | ChecksumMismatch | BadPayload(error: E)

  datatype DecodeResult<R, E> =
    | Complete(records: seq<R>, validByteLength: nat, truncatedTail: bool)
    | Corrupt(records: seq<R>, validByteLength: nat, reason: Corruption<E>)

  /** `decode` from one frame boundary on, with the records before it. */
  function DecodeFrom<R, E>(f: Format<R, E>, b: Bytes, offset: nat, records: seq<R>): DecodeResult<R, E>
    decreases |b| - offset
  {
    if offset >= |b| then Complete(records, offset, false)
    else if offset + HEADER > |b| then Complete(records, offset, true)
    else match FrameAt(f, b, offset)
      case TooLong => Corrupt(records, offset, InvalidLength)
      case Incomplete =>
        if Scan(f, b, offset + HEADER, 0, 0) != NotFound then Corrupt(records, offset, InvalidLength)
        else Complete(records, offset, true)
      case BadChecksum => Corrupt(records, offset, ChecksumMismatch)
      case Unreadable(e) => Corrupt(records, offset, BadPayload(e))
      case Whole(r) => DecodeFrom(f, b, FrameEnd(b, offset), records + [r])
  }

  function DecodeFrames<R, E>(f: Format<R, E>, b: Bytes): DecodeResult<R, E> { DecodeFrom(f, b, 0, []) }

  /** `decode` */
  method Decode<R, E>(f: Format<R, E>, b: Bytes) returns (result: DecodeResult<R, E>)
    ensures result == DecodeFrames(f, b)
  {
    var records: seq<R> := [];
    var offset := 0;
    while offset < |b|
      invariant DecodeFrames(f, b) == DecodeFrom(f, b, offset, records)
      decreases |b| - offset
    {
      if |b| - offset < HEADER {
        return Complete(records, offset, true);
      }
      match FrameAt(f, b, offset)
      case TooLong => return Corrupt(records, offset, InvalidLength);
      case Incomplete =>
        var resync := FindCompleteCanonicalFrameAfter(f, b, offset + HEADER);
        return if resync != NotFound then Corrupt(records, offset, InvalidLength) else Complete(records, offset, true);
      case BadChecksum => return Corrupt(records, offset, ChecksumMismatch);
      case Unreadable(e) => return Corrupt(records, offset, BadPayload(e));
      case Whole(r) =>
        records, offset := records + [r], FrameEnd(b, offset);
    }
    return Complete(records, offset, false);
  }

  // ---------------------------------------------------------------- a frame inside a byte string

  predicate StandsAt(b: Bytes, at: nat, part: Bytes) { at + |part| <= |b| && b[at..at + |part|] == part }

  /** A frame stands at an offset exactly when its three parts stand one after the other. */
  lemma FramedParts(b: Bytes, at: nat, length: Bytes, crc: Bytes, payload: Bytes)
    requires |length| == |crc| == 4
    ensures StandsAt(b, at, length + crc + payload) <==>
            StandsAt(b, at, length) && StandsAt(b, at + 4, crc) && StandsAt(b, at + HEADER, payload)
  {
    var whole := length + crc + payload;
    if StandsAt(b, at, whole) {
      var w := b[at..at + |whole|];
      assert w[..4] == b[at..at + 4] && w[4..8] == b[at + 4..at + 8] && w[8..] == b[at + 8..at + |whole|];
      assert whole[..4] == length && whole[4..8] == crc && whole[8..] == payload;
    }
    if StandsAt(b, at, length) && StandsAt(b, at + 4, crc) && StandsAt(b, at + HEADER, payload) {
      assert b[at..at + |whole|] == b[at..at + 4] + b[at + 4..at + 8] + b[at + 8..at + |whole|];
    }
  }

  lemma WordStands(b: Bytes, at: nat, n: nat)
    requires n < 0x1_0000_0000 && at + 4 <= |b|
    ensures StandsAt(b, at, Word(n)) <==> ReadWord(b, at) == n
  {
    WordOfRead(b, at);
    ReadOfWord(n);
    if StandsAt(b, at, Word(n)) {
      assert b[at] == b[at..at + 4][0] && b[at + 1] == b[at..at + 4][1];
      assert b[at + 2] == b[at..at + 4][2] && b[at + 3] == b[at..at + 4][3];
    }
  }

  lemma HeaderRead<R, E>(f: Format<R, E>, b: Bytes, at: nat, payload: Bytes)
    requires Sound(f) && |payload| < 0x1_0000_0000 && at + HEADER + |payload| <= |b|
    ensures StandsAt(b, at, Framed(f, payload)) <==>
      ReadWord(b, at) == |payload| && ReadWord(b, at + 4) == f.crc(payload) &&
      b[at + HEADER..at + HEADER + |payload|] == payload
  {
    FramedParts(b, at, Word(|payload|), Word(f.crc(payload)), payload);
    WordStands(b, at, |payload|);
    WordStands(b, at + 4, f.crc(payload));
  }

  ghost predicate HasHeader<R, E>(f: Format<R, E>, b: Bytes, at: nat, payload: Bytes)
  {
    at + HEADER + |payload| <= |b| && |payload| <= f.maxPayload &&
    ReadWord(b, at) == |payload| && ReadWord(b, at + 4) == f.crc(payload) &&
    b[at + HEADER..at + HEADER + |payload|] == payload
  }

  // ---------------------------------------------------------------- frame sequences

  function FrameBytes<R, E>(f: Format<R, E>, ps: seq<Bytes>): (b: Bytes)
  {
    if ps == [] then [] else FrameBytes(f, ps[..|ps| - 1]) + Framed(f, ps[|ps| - 1])
  }

  /** The payloads are accepted and read as these records. */
  ghost predicate Readable<R, E>(f: Format<R, E>, ps: seq<Bytes>, rs: seq<R>)
  {
    |ps| == |rs| && forall i :: 0 <= i < |ps| ==> |ps[i]| <= f.maxPayload && f.read(ps[i]) == Ok(rs[i])
  }

  lemma FrameBytesAppend<R, E>(f: Format<R, E>, ps: seq<Bytes>, p: Bytes)
    ensures FrameBytes(f, ps + [p]) == FrameBytes(f, ps) + Framed(f, p)
  {
    assert (ps + [p])[..|ps|] == ps;
  }

  lemma FrontStands(b: Bytes, front: Bytes, part: Bytes)
    requires front + part <= b
    ensures front <= b && StandsAt(b, |front|, part)
  {
    assert b[..|front| + |part|] == front + part;
    assert b[|front|..|front| + |part|] == (front + part)[|front|..];
  }

  /** Decoding gets to this boundary with these records. */
  ghost predicate Reaches<R, E>(f: Format<R, E>, b: Bytes, at: nat, rs: seq<R>)
  {
    DecodeFrames(f, b) == DecodeFrom(f, b, at, rs)
  }

  lemma PassFrame<R, E>(f: Format<R, E>, b: Bytes, at: nat, payload: Bytes, r: R, rs: seq<R>)
    requires HasHeader(f, b, at, payload) && f.read(payload) == Ok(r) && Reaches(f, b, at, rs)
    ensures Reaches(f, b, at + HEADER + |payload|, rs + [r])
  {
    assert FrameAt(f, b, at) == Whole(r);
  }

  lemma LastFrame<R, E>(f: Format<R, E>, b: Bytes, ps: seq<Bytes>, p: Bytes, rs: seq<R>, r: R)
    requires Sound(f) && |p| <= f.maxPayload && f.read(p) == Ok(r)
    requires FrameBytes(f, ps) + Framed(f, p) <= b && Reaches(f, b, |FrameBytes(f, ps)|, rs)
    ensures Reaches(f, b, |FrameBytes(f, ps) + Framed(f, p)|, rs + [r])
  {
    var at := |FrameBytes(f, ps)|;
    assert HasHeader(f, b, at, p) by {
      FrontStands(b, FrameBytes(f, ps), Framed(f, p));
      HeaderRead(f, b, at, p);
    }
    PassFrame(f, b, at, p, r, rs);
  }

  lemma ReadableAppend<R, E>(f: Format<R, E>, ps: seq<Bytes>, rs: seq<R>, p: Bytes, r: R)
    requires Readable(f, ps, rs) && |p| <= f.maxPayload && f.read(p) == Ok(r)
    ensures Readable(f, ps + [p], rs + [r])
  {
  }

  /** Decoding passes over readable frames at the front of any byte string. */
  lemma {:induction false} DecodePassesFrames<R, E>(f: Format<R, E>, b: Bytes, ps: seq<Bytes>, rs: seq<R>)
    requires Sound(f) && Readable(f, ps, rs) && FrameBytes(f, ps) <= b
    ensures Reaches(f, b, |FrameBytes(f, ps)|, rs)
  {
    if ps == [] {
      assert rs == [];
    } else {
      var n := |ps| - 1;
      var front := FrameBytes(f, ps[..n]);
      assert front <= b by { FrontStands(b, front, Framed(f, ps[n])); }
      DecodePassesFrames(f, b, ps[..n], rs[..n]);
      LastFrame(f, b, ps[..n], ps[n], rs[..n], rs[n]);
      assert rs[..n] + [rs[n]] == rs;
    }
  }

  /** What decodes as a frame is a frame: header and payload are those `Framed` writes. */
  lemma WholeFrameIsFramed<R, E>(f: Format<R, E>, b: Bytes, at: nat)
    requires Sound(f) && at + HEADER <= |b| && FrameAt(f, b, at).Whole?
    ensures b[at..FrameEnd(b, at)] == Framed(f, b[at + HEADER..FrameEnd(b, at)])
  {
    HeaderRead(f, b, at, b[at + HEADER..FrameEnd(b, at)]);
  }

  lemma {:induction false} DecodedPrefixFrom<R, E>(f: Format<R, E>, b: Bytes, offset: nat, ps: seq<Bytes>, rs: seq<R>)
      returns (qs: seq<Bytes>)
    requires Sound(f) && offset <= |b| && Readable(f, ps, rs) && FrameBytes(f, ps) == b[..offset]
    ensures var d := DecodeFrom(f, b, offset, rs);
            d.validByteLength <= |b| && Readable(f, qs, d.records) && FrameBytes(f, qs) == b[..d.validByteLength]
    decreases |b| - offset
  {
    qs := ps;
    if offset + HEADER <= |b| && FrameAt(f, b, offset).Whole? {
      var end := FrameEnd(b, offset);
      var p := b[offset + HEADER..end];
      WholeFrameIsFramed(f, b, offset);
      FrameBytesAppend(f, ps, p);
      assert b[..offset] + b[offset..end] == b[..end];
      qs := DecodedPrefixFrom(f, b, end, ps + [p], rs + [FrameAt(f, b, offset).record]);
    }
  }

  /** Whatever the outcome, the valid bytes are exactly the frames of the returned records. */
  lemma DecodedPrefix<R, E>(f: Format<R, E>, b: Bytes) returns (ps: seq<Bytes>)
    requires Sound(f)
    ensures var d := DecodeFrames(f, b);
            d.validByteLength <= |b| && Readable(f, ps, d.records) && FrameBytes(f, ps) == b[..d.validByteLength]
  {
    assert b[..0] == [];
    ps := DecodedPrefixFrom(f, b, 0, [], []);
  }

  /** Readable frames decode to exactly their records. */
  lemma DecodeOfFrames<R, E>(f: Format<R, E>, ps: seq<Bytes>, rs: seq<R>)
    requires Sound(f) && Readable(f, ps, rs)
    ensures DecodeFrames(f, FrameBytes(f, ps)) == Complete(rs, |FrameBytes(f, ps)|, false)
  {
    DecodePassesFrames(f, FrameBytes(f, ps), ps, rs);
  }

  // ---------------------------------------------------------------- cutting bytes off

  /** A frame is whole after a cut if it was before and ends before the cut. */
  lemma WholeAfterCut<R, E>(f: Format<R, E>, b: Bytes, cut: nat, at: nat)
    requires at + HEADER <= cut <= |b|
    ensures FrameAt(f, b[..cut], at).Whole? <==> FrameAt(f, b, at).Whole? && FrameEnd(b, at) <= cut
    ensures FrameAt(f, b[..cut], at).Whole? ==> FrameAt(f, b[..cut], at) == FrameAt(f, b, at)
    ensures FrameEnd(b[..cut], at) == FrameEnd(b, at)
  {
    var end := FrameEnd(b, at);
    if end <= cut { assert b[..cut][at + HEADER..end] == b[at + HEADER..end]; }
  }

  /** Decoding goes on from a boundary: no record is taken back. */
  lemma {:induction false} DecodeGoesOn<R, E>(f: Format<R, E>, b: Bytes, offset: nat, rs: seq<R>)
    requires offset <= |b|
    ensures var d := DecodeFrom(f, b, offset, rs);
            |rs| <= |d.records| && offset <= d.validByteLength &&
            (d.Complete? && d.truncatedTail ==> d.validByteLength < |b|)
    decreases |b| - offset
  {
    if offset + HEADER <= |b| && FrameAt(f, b, offset).Whole? {
      DecodeGoesOn(f, b, FrameEnd(b, offset), rs + [FrameAt(f, b, offset).record]);
    }
  }

  /** Cutting bytes keeps all records exactly when the cut is not before the end of the last frame. */
  lemma {:induction false} CutKeepsRecordsFrom<R, E>(f: Format<R, E>, b: Bytes, cut: nat, offset: nat, rs: seq<R>)
    requires offset <= cut <= |b|
    ensures var d, e := DecodeFrom(f, b, offset, rs), DecodeFrom(f, b[..cut], offset, rs);
            if d.validByteLength <= cut then e.records == d.records else |e.records| < |d.records|
    decreases |b| - offset
  {
    if offset + HEADER <= cut { WholeAfterCut(f, b, cut, offset); }
    if offset + HEADER <= |b| && FrameAt(f, b, offset).Whole? {
      var end, more := FrameEnd(b, offset), rs + [FrameAt(f, b, offset).record];
      if end <= cut {
        CutKeepsRecordsFrom(f, b, cut, end, more);
      } else {
        DecodeGoesOn(f, b, end, more);
      }
    }
  }

  // ---------------------------------------------------------------- torn tails

  /** Four payload bytes of at least 0x20 are no plausible length. */
  lemma {:induction false} ScanOfText<R, E>(f: Format<R, E>, b: Bytes, at: nat, candidates: nat, summed: nat)
    requires f.maxPayload < 0x2020_2020 && forall i :: at <= i < |b| ==> b[i] >= 0x20
    requires candidates <= MAX_CANDIDATES
    ensures Scan(f, b, at, candidates, summed)
         == if |b| - at - (HEADER - 1) > MAX_CANDIDATES - candidates then BudgetExceeded else NotFound
    decreases |b| - at
  {
    if at + HEADER <= |b| && candidates < MAX_CANDIDATES {
      assert ReadWord(b, at) >= FromOctets(0x20, 0x20, 0x20, 0x20) == 0x2020_2020;
      ScanOfText(f, b, at + 1, candidates + 1, summed);
    }
  }

  /** A proper, nonempty prefix of one more frame, whose payload holds no byte below 0x20. */
  ghost predicate Torn<R, E>(f: Format<R, E>, payload: Bytes, torn: Bytes)
  {
    0 < |torn| < HEADER + |payload| && torn <= Framed(f, payload) &&
    |payload| <= f.maxPayload && forall i :: 0 <= i < |payload| ==> payload[i] >= 0x20
  }

  lemma TornTailFrom<R, E>(f: Format<R, E>, b: Bytes, at: nat, payload: Bytes, torn: Bytes, rs: seq<R>)
    requires Sound(f) && f.maxPayload < 0x2020_2020 && Torn(f, payload, torn)
    requires at + |torn| == |b| && b[at..] == torn
    ensures DecodeFrom(f, b, at, rs)
         == if |torn| < 4112 then Complete(rs, at, true) else Corrupt(rs, at, InvalidLength)
  {
    if |torn| >= HEADER {
      var frame := Framed(f, payload);
      forall i | 0 <= i < |torn| ensures b[at + i] == frame[i] { assert b[at..][i] == torn[i]; }
      ReadOfWord(|payload|);
      assert forall i :: 0 <= i < 4 ==> frame[i] == Word(|payload|)[i];
      assert ReadWord(b, at) == |payload| by {
        assert b[at] == frame[0] && b[at + 1] == frame[1] && b[at + 2] == frame[2] && b[at + 3] == frame[3];
      }
      forall j | at + HEADER <= j < |b| ensures b[j] >= 0x20 {
        assert b[at + (j - at)] == frame[j - at] == payload[j - at - HEADER];
      }
      ScanOfText(f, b, at + HEADER, 0, 0);
    }
  }

  /** Whole frames followed by a torn one: the whole ones are kept, up to the scan budget. */
  lemma TornTail<R, E>(f: Format<R, E>, ps: seq<Bytes>, rs: seq<R>, payload: Bytes, torn: Bytes)
    requires Sound(f) && f.maxPayload < 0x2020_2020 && Readable(f, ps, rs) && Torn(f, payload, torn)
    ensures DecodeFrames(f, FrameBytes(f, ps) + torn)
         == if |torn| < 4112 then Complete(rs, |FrameBytes(f, ps)|, true)
            else Corrupt(rs, |FrameBytes(f, ps)|, InvalidLength)
  {
    var b := FrameBytes(f, ps) + torn;
    DecodePassesFrames(f, b, ps, rs);
    TornTailFrom(f, b, |FrameBytes(f, ps)|, payload, torn, rs);
  }

  // ---------------------------------------------------------------- damaged frames

  predicate OneByteApart(p: Bytes, q: Bytes)
  {
    |p| == |q| && exists i :: 0 <= i < |p| && p[i] != q[i] && q == p[i := q[i]]
  }

  /** A checksum that no change of a single byte keeps. */
  ghost predicate DetectsByteChange<R, E>(f: Format<R, E>)
  {
    forall p, q :: OneByteApart(p, q) ==> f.crc(p) != f.crc(q)
  }

  lemma DamagedChecksum<R, E>(f: Format<R, E>, b: Bytes, at: nat, payload: Bytes, j: nat, x: Byte)
    requires HasHeader(f, b, at, payload) && 4 <= j < HEADER && b[at + j] != x
    ensures FrameAt(f, b[at + j := x], at).BadChecksum?
  {
    var damaged := b[at + j := x];
    assert damaged[at + HEADER..at + HEADER + |payload|] == payload;
    if ReadWord(damaged, at + 4) == ReadWord(b, at + 4) {
      SameWord(damaged, b, at + 4);
    }
    assert ReadWord(damaged, at) == ReadWord(b, at);
  }

  lemma DamagedPayload<R, E>(f: Format<R, E>, b: Bytes, at: nat, payload: Bytes, j: nat, x: Byte)
    requires DetectsByteChange(f) && HasHeader(f, b, at, payload) && j < |payload| && b[at + HEADER + j] != x
    ensures FrameAt(f, b[at + HEADER + j := x], at).BadChecksum?
  {
    var damaged := b[at + HEADER + j := x];
    var q := damaged[at + HEADER..at + HEADER + |payload|];
    assert payload[j] == b[at + HEADER..at + HEADER + |payload|][j] == b[at + HEADER + j];
    assert q == payload[j := x];
    assert OneByteApart(payload, q);
  }

  lemma DamagedFrame<R, E>(f: Format<R, E>, b: Bytes, at: nat, payload: Bytes, j: nat, x: Byte)
    requires Sound(f) && DetectsByteChange(f) && |payload| <= f.maxPayload
    requires StandsAt(b, at, Framed(f, payload)) && 4 <= j < HEADER + |payload| && b[at + j] != x
    ensures FrameAt(f, b[at + j := x], at).BadChecksum?
  {
    HeaderRead(f, b, at, payload);
    if j < HEADER {
      DamagedChecksum(f, b, at, payload, j, x);
    } else {
      DamagedPayload(f, b, at, payload, j - HEADER, x);
    }
  }

  /** A changed byte in the checksum or payload of a frame is found at exactly that frame. */
  lemma DamageLocated<R, E>(f: Format<R, E>, ps: seq<Bytes>, rs: seq<R>, payload: Bytes, rest: Bytes, j: nat, x: Byte)
    requires Sound(f) && DetectsByteChange(f) && Readable(f, ps, rs) && |payload| <= f.maxPayload
    requires 4 <= j < HEADER + |payload| && Framed(f, payload)[j] != x
    ensures var n := |FrameBytes(f, ps)|;
            DecodeFrames(f, FrameBytes(f, ps) + Framed(f, payload)[j := x] + rest) == Corrupt(rs, n, ChecksumMismatch)
  {
    var n := |FrameBytes(f, ps)|;
    var b := FrameBytes(f, ps) + Framed(f, payload) + rest;
    var damaged := FrameBytes(f, ps) + Framed(f, payload)[j := x] + rest;
    assert b[n..n + HEADER + |payload|] == Framed(f, payload);
    assert damaged == b[n + j := x];
    DamagedFrame(f, b, n, payload, j, x);
    DecodePassesFrames(f, damaged, ps, rs);
  }
}
