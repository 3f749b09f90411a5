/**
 `PortableWalRecordCodec` of `src/storage/wal-record-codec.ts`: commit records as canonical
 JSON in CRC-32 checked frames.
 */
module WalCodec {
  import opened Wrappers
  import opened Utf8
  import opened CanonicalJson
  import opened JsonCanonical
  import opened Crc32
  import opened WalRecord
  import opened WalFrames

  datatype Codec = Codec(syn: Syntax, maxPayload: nat)

  datatype EncodeError = CanonicalizationFailed | RecordTooLarge

  type WalFormat = Format<CommitRecord, PayloadError>
  type WalResult = DecodeResult<CommitRecord, PayloadError>

  function Crc(payload: Bytes): nat { WordValue(Checksum(payload)) }

  function DecodedPayload(syn: Syntax, payload: Bytes): Result<CommitRecord, PayloadError>
  {
    match Decoding(payload)
    case None => Err(InvalidUtf8)
    case Some(text) => DecodeText(syn, text)
  }

  function FormatOf(c: Codec): WalFormat
  {
    Format((p: Bytes) => Crc(p), (p: Bytes) => DecodedPayload(c.syn, p), c.maxPayload)
  }

  function Encoded(c: Codec, r: CommitRecord): Result<Bytes, EncodeError>
  {
    match Serialize(RecordJson(r), 0)
    case Err(_) => Err(CanonicalizationFailed)
    case Ok(text) =>
      if |Encoding(text)| > c.maxPayload then Err(RecordTooLarge) else Ok(Framed(FormatOf(c), Encoding(text)))
  }

  function DecodedWal(c: Codec, b: Bytes): WalResult { DecodeFrames(FormatOf(c), b) }

  // ---------------------------------------------------------------- the codec's own loops

  /** `encode` */
  method Encode(c: Codec, r: CommitRecord) returns (result: Result<Bytes, EncodeError>)
    ensures result == Encoded(c, r)
  {
    var serialized := SerializeValue(RecordJson(r), 0);
    if serialized.Err? {
      return Err(CanonicalizationFailed);
    }
    var payload := EncodeUtf8(serialized.value);
    if |payload| > c.maxPayload {
      return Err(RecordTooLarge);
    }
    var checksum := ComputeCrc32(payload);
    return Ok(Word(|payload|) + Word(WordValue(checksum)) + payload);
  }

  /** `decodePayload` */
  method DecodePayload(syn: Syntax, payload: Bytes) returns (r: Result<CommitRecord, PayloadError>)
    ensures r == DecodedPayload(syn, payload)
  {
    var text := DecodeUtf8(payload);
    if text.None? {
      return Err(InvalidUtf8);
    }
    return DecodeText(syn, text.value);
  }

  // ---------------------------------------------------------------- what the codec promises

  /** The frames of several records, one after the other. */
  function Frames(c: Codec, rs: seq<CommitRecord>): Result<Bytes, EncodeError>
  {
    if rs == [] then Ok([])
    else match Frames(c, rs[..|rs| - 1])
      case Err(e) => Err(e)
      case Ok(front) =>
        match Encoded(c, rs[|rs| - 1])
        case Err(e) => Err(e)
        case Ok(last) => Ok(front + last)
  }

  /** Payload lengths fit the length word, and safe integers read back as themselves. */
  ghost predicate SoundCodec(c: Codec) { c.maxPayload < 0x1_0000_0000 && ReadsIntegers(c.syn) }

  lemma FormatSound(c: Codec)
    requires c.maxPayload < 0x1_0000_0000
    ensures Sound(FormatOf(c))
  {
  }

  /** CRC-32 detects every change of a single byte. */
  lemma FormatDetects(c: Codec)
    ensures DetectsByteChange(FormatOf(c))
  {
    forall p: Bytes, q: Bytes | OneByteApart(p, q) ensures FormatOf(c).crc(p) != FormatOf(c).crc(q) {
      var i :| 0 <= i < |p| && p[i] != q[i] && q == p[i := q[i]];
      SingleByteChangesChecksum(p, i, q[i]);
      if Crc(p) == Crc(q) { WordValueInjective(Checksum(p), Checksum(q)); }
    }
  }

  function Payload(r: CommitRecord): Bytes
    requires Serialize(RecordJson(r), 0).Ok?
  {
    Encoding(Serialize(RecordJson(r), 0).value)
  }

  lemma EncodedPayload(c: Codec, r: CommitRecord)
    requires Encoded(c, r).Ok?
    ensures Serialize(RecordJson(r), 0).Ok? && |Payload(r)| <= c.maxPayload
    ensures Encoded(c, r).value == Framed(FormatOf(c), Payload(r))
  {
  }

  /** The payload of a valid record reads back as the record, and holds no control byte. */
  lemma PayloadReads(c: Codec, r: CommitRecord)
    requires SoundCodec(c) && ValidRecord(c.syn, r) && Encoded(c, r).Ok?
    ensures Serialize(RecordJson(r), 0).Ok?
    ensures DecodedPayload(c.syn, Payload(r)) == Ok(Canonical(r))
    ensures forall i :: 0 <= i < |Payload(r)| ==> Payload(r)[i] >= 0x20
  {
    EncodedPayload(c, r);
    var text := Serialize(RecordJson(r), 0).value;
    RecordJsonValid(c.syn, r);
    TextPlain(c.syn.read, RecordJson(r), 0);
    RoundTrip(text);
    EncodingAtLeast(text, 0x20);
    TextRoundTrip(c.syn, r);
  }

  ghost predicate ValidRecords(c: Codec, rs: seq<CommitRecord>)
  {
    forall i :: 0 <= i < |rs| ==> ValidRecord(c.syn, rs[i])
  }

  /** Each record with the keys of its replay input in canonical order. */
  ghost function Canonicals(rs: seq<CommitRecord>): (cs: seq<CommitRecord>)
    ensures |cs| == |rs| && forall i :: 0 <= i < |rs| ==> cs[i] == Canonical(rs[i])
  {
    seq(|rs|, i requires 0 <= i < |rs| => Canonical(rs[i]))
  }

  lemma FramesLast(c: Codec, rs: seq<CommitRecord>)
    requires rs != [] && Frames(c, rs).Ok?
    ensures Frames(c, rs[..|rs| - 1]).Ok? && Encoded(c, rs[|rs| - 1]).Ok?
    ensures Frames(c, rs).value == Frames(c, rs[..|rs| - 1]).value + Encoded(c, rs[|rs| - 1]).value
  {
  }

  lemma CanonicalsAppend(rs: seq<CommitRecord>, r: CommitRecord)
    ensures Canonicals(rs + [r]) == Canonicals(rs) + [Canonical(r)]
  {
  }

  lemma CanonicalsLast(rs: seq<CommitRecord>)
    requires rs != []
    ensures Canonicals(rs) == Canonicals(rs[..|rs| - 1]) + [Canonical(rs[|rs| - 1])]
  {
    CanonicalsAppend(rs[..|rs| - 1], rs[|rs| - 1]);
    assert rs[..|rs| - 1] + [rs[|rs| - 1]] == rs;
  }

  lemma {:induction false} FramesReadable(c: Codec, rs: seq<CommitRecord>) returns (ps: seq<Bytes>)
    requires SoundCodec(c) && ValidRecords(c, rs) && Frames(c, rs).Ok?
    ensures Readable(FormatOf(c), ps, Canonicals(rs)) && FrameBytes(FormatOf(c), ps) == Frames(c, rs).value
  {
    if rs == [] {
      ps := [];
    } else {
      FramesLast(c, rs);
      CanonicalsLast(rs);
      var front := FramesReadable(c, rs[..|rs| - 1]);
      ps := OneMoreReadable(c, front, rs[..|rs| - 1], rs[|rs| - 1], FormatOf(c));
    }
  }

  lemma OneMoreReadable(c: Codec, front: seq<Bytes>, rs: seq<CommitRecord>, r: CommitRecord, f: WalFormat)
    returns (ps: seq<Bytes>)
    requires SoundCodec(c) && ValidRecord(c.syn, r) && Encoded(c, r).Ok? && f == FormatOf(c)
    requires Readable(f, front, Canonicals(rs))
    ensures Readable(f, ps, Canonicals(rs) + [Canonical(r)])
    ensures FrameBytes(f, ps) == FrameBytes(f, front) + Encoded(c, r).value
  {
    var last := FrameReadable(c, r);
    FrameBytesAppend(f, front, last);
    ReadableAppend(f, front, Canonicals(rs), last, Canonical(r));
    ps := front + [last];
  }

  lemma FrameReadable(c: Codec, r: CommitRecord) returns (p: Bytes)
    requires SoundCodec(c) && ValidRecord(c.syn, r) && Encoded(c, r).Ok?
    ensures |p| <= c.maxPayload && FormatOf(c).read(p) == Ok(Canonical(r))
    ensures Encoded(c, r).value == Framed(FormatOf(c), p)
  {
    EncodedPayload(c, r);
    PayloadReads(c, r);
    p := Payload(r);
  }

  lemma {:induction false} ReadableFrames(c: Codec, ps: seq<Bytes>, rs: seq<CommitRecord>)
    requires Readable(FormatOf(c), ps, rs)
    ensures Frames(c, rs) == Ok(FrameBytes(FormatOf(c), ps))
  {
    if rs != [] {
      var n := |rs| - 1;
      ReadableFrames(c, ps[..n], rs[..n]);
      ReadPayloadIsEncoded(c, ps[n], rs[n]);
    }
  }

  lemma ReadPayloadIsEncoded(c: Codec, payload: Bytes, r: CommitRecord)
    requires DecodedPayload(c.syn, payload) == Ok(r) && |payload| <= c.maxPayload
    ensures Encoded(c, r) == Ok(Framed(FormatOf(c), payload))
  {
    DecodeIsExact(payload);
  }

  /** Whatever `decode` returns on arbitrary bytes, its records re-encode to exactly the valid
      bytes, and those bytes alone decode to the same records with nothing left over. */
  lemma DecodeIsLeftInverse(c: Codec, b: Bytes)
    requires c.maxPayload < 0x1_0000_0000
    ensures DecodedWal(c, b).validByteLength <= |b|
    ensures Frames(c, DecodedWal(c, b).records) == Ok(b[..DecodedWal(c, b).validByteLength])
    ensures DecodedWal(c, b[..DecodedWal(c, b).validByteLength])
         == Complete(DecodedWal(c, b).records, DecodedWal(c, b).validByteLength, false)
  {
    FormatSound(c);
    var ps := DecodedPrefix(FormatOf(c), b);
    ReadableFrames(c, ps, DecodedWal(c, b).records);
    DecodeOfFrames(FormatOf(c), ps, DecodedWal(c, b).records);
  }

  /** The frames of valid records decode to those records. */
  lemma WalRoundTrip(c: Codec, rs: seq<CommitRecord>)
    requires SoundCodec(c) && ValidRecords(c, rs) && Frames(c, rs).Ok?
    ensures DecodedWal(c, Frames(c, rs).value) == Complete(Canonicals(rs), |Frames(c, rs).value|, false)
  {
    FormatSound(c);
    var ps := FramesReadable(c, rs);
    DecodeOfFrames(FormatOf(c), ps, Canonicals(rs));
  }

  /** A torn last frame is dropped at its boundary; from 4112 stray bytes on, the scan budget
      runs out and the tail is reported as corruption instead. */
  lemma WalTornTail(c: Codec, rs: seq<CommitRecord>, r: CommitRecord, torn: Bytes)
    requires SoundCodec(c) && c.maxPayload < 0x2020_2020
    requires ValidRecords(c, rs + [r]) && Frames(c, rs).Ok? && Encoded(c, r).Ok?
    requires 0 < |torn| < |Encoded(c, r).value| && torn <= Encoded(c, r).value
    ensures DecodedWal(c, Frames(c, rs).value + torn)
         == if |torn| < 4112 then Complete(Canonicals(rs), |Frames(c, rs).value|, true)
            else Corrupt(Canonicals(rs), |Frames(c, rs).value|, InvalidLength)
  {
    FormatSound(c);
    assert (rs + [r])[|rs|] == r;
    assert forall i :: 0 <= i < |rs| ==> (rs + [r])[i] == rs[i];
    var ps := FramesReadable(c, rs);
    EncodedPayload(c, r);
    PayloadReads(c, r);
    TornTail(FormatOf(c), ps, Canonicals(rs), Payload(r), torn);
  }

  /** Changing any byte of a frame's checksum or payload is reported at that frame, with
      exactly the records before it, whatever follows. */
  lemma WalDamageLocated(c: Codec, rs: seq<CommitRecord>, r: CommitRecord, rest: Bytes, j: nat, x: Byte)
    requires SoundCodec(c) && ValidRecords(c, rs) && Frames(c, rs).Ok? && Encoded(c, r).Ok?
    requires 4 <= j < |Encoded(c, r).value| && Encoded(c, r).value[j] != x
    ensures DecodedWal(c, Frames(c, rs).value + Encoded(c, r).value[j := x] + rest)
         == Corrupt(Canonicals(rs), |Frames(c, rs).value|, ChecksumMismatch)
  {
    FormatSound(c);
    FormatDetects(c);
    var ps := FramesReadable(c, rs);
    EncodedPayload(c, r);
    DamageLocated(FormatOf(c), ps, Canonicals(rs), Payload(r), rest, j, x);
  }
}
