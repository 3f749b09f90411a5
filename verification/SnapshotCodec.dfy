/**
 `CanonicalSnapshotCodec` of `src/storage/snapshot-store.ts` up to the document schema: a snapshot is
 stored as the UTF-8 bytes of its canonical JSON text.  The schema decoder that reads the parsed value
 is not part of this model.
 */
module SnapshotCodec {
  import opened Wrappers
  import opened Utf8
  import opened CanonicalJson
  import opened JsonText
  import opened JsonCanonical

  datatype CodecError = CanonicalizationFailed | InvalidUtf8 | InvalidJson

  function Stored(v: Json): Result<Bytes, CodecError>
  {
    match Serialize(v, 0)
    case Err(_) => Err(CanonicalizationFailed)
    case Ok(text) => Ok(Encoding(text))
  }

  function ReadBack(read: NumberReading, bytes: Bytes): Result<Json, CodecError>
  {
    match Decoding(bytes)
    case None => Err(InvalidUtf8)
    case Some(text) =>
      match ParseText(read, text)
      case None => Err(InvalidJson)
      case Some(v) => Ok(v)
  }

  /** `encode` */
  method Encode(v: Json) returns (r: Result<Bytes, CodecError>)
    ensures r == Stored(v)
  {
    var serialized := SerializeValue(v, 0);
    if serialized.Err? {
      return Err(CanonicalizationFailed);
    }
    var bytes := EncodeUtf8(serialized.value);
    return Ok(bytes);
  }

  /** `decode` before the schema decoder */
  method Decode(read: NumberReading, bytes: Bytes) returns (r: Result<Json, CodecError>)
    ensures r == ReadBack(read, bytes)
  {
    var decoded := DecodeUtf8(bytes);
    if decoded.None? {
      return Err(InvalidUtf8);
    }
    var parsed := ParseText(read, decoded.value);
    if parsed.None? {
      return Err(InvalidJson);
    }
    return Ok(parsed.value);
  }

  /** A stored snapshot reads back as the same JSON value. */
  lemma SnapshotRoundTrip(read: NumberReading, v: Json)
    requires Valid(read, v) && Stored(v).Ok?
    ensures ReadBack(read, Stored(v).value) == Ok(Normal(v)) && Same(v, Normal(v))
  {
    hide Serialize, ParseText, Same, Encoding, Decoding;
    StoredIsWellFormed(read, v);
    RoundTrip(Serialize(v, 0).value);
    ParseSerialized(read, v);
    NormalIsSame(read, v);
  }

  lemma StoredIsWellFormed(read: NumberReading, v: Json)
    requires Valid(read, v) && Serialize(v, 0).Ok?
    ensures WellFormed(Serialize(v, 0).value)
  {
    hide Serialize;
    TextPlain(read, v, 0);
  }

  /** Two snapshots are stored as the same bytes exactly when they are the same JSON value. */
  lemma SameBytesIff(read: NumberReading, v: Json, w: Json)
    requires Valid(read, v) && Valid(read, w) && Stored(v).Ok? && Stored(w).Ok?
    ensures Stored(v) == Stored(w) <==> Same(v, w)
  {
    hide Serialize, Same, Encoding, Decoding;
    StoredIsWellFormed(read, v);
    StoredIsWellFormed(read, w);
    RoundTrip(Serialize(v, 0).value);
    RoundTrip(Serialize(w, 0).value);
    CanonicalForm(read, v, w);
  }
}
