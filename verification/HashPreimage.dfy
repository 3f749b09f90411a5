/**
 The text that is hashed for a payload, and its hash: `src/base/hashing/hash-preimage.ts` and the
 portable hash of `src/base/hashing/portable-sha-256.ts`.
 */
module HashPreimage {
  import opened Wrappers
  import opened Utf8
  import opened TextEncoder
  import opened CodePointOrder
  import opened CanonicalJson
  import opened JsonText
  import opened JsonCanonical
  import opened HexText
  import opened Sha256Standard
  import opened Sha256

  /** `HASH_DOMAINS` */
  datatype HashDomain =
    | AcademicEntity | DocumentContent | GovernanceManifest | Node | ProposalChangeGroup | SemanticDiff | Transaction

  datatype HashResult = HashResult(hash: JsString, canonicalJson: JsString, preimage: JsString)

  const HEADER := Lit("NIRECO\0HASH\0V1\0")

  const HASH_SCHEME := Lit("sha256:")

  const MAX_HASH_ENCODE_INTO_UTF16_UNITS := 16 * 1024 * 1024

  function DomainName(domain: HashDomain): (name: string)
    ensures forall c :: c in name ==> 0 as char < c < 128 as char
  {
    match domain
    case AcademicEntity => "nireco.academic-entity.v1"
    case DocumentContent => "nireco.document-content.v1"
    case GovernanceManifest => "nireco.governance-manifest.v1"
    case Node => "nireco.node.v1"
    case ProposalChangeGroup => "nireco.proposal-change-group.v1"
    case SemanticDiff => "nireco.semantic-diff.v1"
    case Transaction => "nireco.transaction.v1"
  }

  function Prefix(domain: HashDomain): JsString { HEADER + Lit(DomainName(domain)) + [0] }

  function Preimage(domain: HashDomain, canonicalJson: JsString): JsString { Prefix(domain) + canonicalJson }

  /** `createCanonicalHashPreimage` */
  function CanonicalPreimage(domain: HashDomain, payload: Json): Result<JsString, Reason>
  {
    match Serialize(payload, 0)
    case Err(e) => Err(e)
    case Ok(text) => Ok(Preimage(domain, text))
  }

  /** What `hashCanonicalJsonTextPortable` returns. */
  function HashOf(domain: HashDomain, canonicalJson: JsString): HashResult
  {
    var preimage := Preimage(domain, canonicalJson);
    HashResult(HASH_SCHEME + Hex(Sha256Standard.Sha256(Encoded(preimage))), canonicalJson, preimage)
  }

  /** `SHA_256_PATTERN` of `src/base/ids/identifiers.ts` */
  predicate IsContentHash(s: JsString)
  {
    |s| == 71 && s[..7] == HASH_SCHEME && forall i :: 7 <= i < 71 ==> IsHexDigit(s[i])
  }

  /** The text of every hash is accepted, so the exception of the source is never thrown. */
  lemma HashIsAccepted(domain: HashDomain, canonicalJson: JsString)
    ensures IsContentHash(HashOf(domain, canonicalJson).hash)
  {
    hide Sha256Standard.Sha256, Encoded, Preimage, Hex;
    HexDigitsOnly(Sha256Standard.Sha256(Encoded(Preimage(domain, canonicalJson))));
  }

  /** Two hashes are the same text exactly when the digests of the two preimages are the same. */
  lemma SameHashIff(d: HashDomain, text: JsString, e: HashDomain, other: JsString)
    ensures HashOf(d, text).hash == HashOf(e, other).hash
       <==> Sha256Standard.Sha256(Encoded(Preimage(d, text))) == Sha256Standard.Sha256(Encoded(Preimage(e, other)))
  {
    hide Sha256Standard.Sha256, Encoded, Preimage, Hex;
    var a, b := HashOf(d, text).hash, HashOf(e, other).hash;
    var x, y := Sha256Standard.Sha256(Encoded(Preimage(d, text))), Sha256Standard.Sha256(Encoded(Preimage(e, other)));
    assert a[|HASH_SCHEME|..] == Hex(x) && b[|HASH_SCHEME|..] == Hex(y);
    HexInjective(x, y);
  }

  // ---------------------------------------------------------------- domains are separate

  lemma DomainNamesDistinct(d: HashDomain, e: HashDomain)
    requires Lit(DomainName(d)) == Lit(DomainName(e))
    ensures d == e
  {
    assert |DomainName(d)| == |DomainName(e)|;
  }

  /** The NUL behind the domain keeps it apart from the payload. */
  lemma PreimageInjective(d: HashDomain, text: JsString, e: HashDomain, other: JsString)
    ensures Preimage(d, text) == Preimage(e, other) <==> d == e && text == other
  {
    hide DomainName;
    if Preimage(d, text) == Preimage(e, other) {
      var a, b := Lit(DomainName(d)), Lit(DomainName(e));
      assert Preimage(d, text)[|HEADER|..] == a + [0] + text;
      assert Preimage(e, other)[|HEADER|..] == b + [0] + other;
      NoNul(d);
      NoNul(e);
      SeparatorIsUnique(a, text, b, other, 0);
      DomainNamesDistinct(d, e);
    }
  }

  lemma NoNul(domain: HashDomain)
    ensures forall i :: 0 <= i < |Lit(DomainName(domain))| ==> 0 < Lit(DomainName(domain))[i] < 0x80
  {
    hide DomainName;
    var name := DomainName(domain);
    forall i | 0 <= i < |name| ensures 0 < Lit(name)[i] < 0x80 { assert name[i] in name; }
  }

  lemma PreimageWellFormed(domain: HashDomain, text: JsString)
    ensures CleanJoin(Prefix(domain), text) && WellFormed(Prefix(domain))
    ensures WellFormed(text) ==> WellFormed(Preimage(domain, text))
  {
    hide DomainName, WellFormed;
    NoNul(domain);
    AsciiWellFormed(Prefix(domain));
    WellFormedConcat(Prefix(domain), text);
  }

  /** The hashed bytes are the same exactly for the same JSON value in the same domain. */
  lemma PreimageBytesIff(read: NumberReading, d: HashDomain, v: Json, e: HashDomain, w: Json)
    requires Valid(read, v) && Valid(read, w) && CanonicalPreimage(d, v).Ok? && CanonicalPreimage(e, w).Ok?
    ensures Encoded(CanonicalPreimage(d, v).value) == Encoded(CanonicalPreimage(e, w).value)
       <==> d == e && Same(v, w)
  {
    hide Serialize, Same, Encoding, Encoded, Decoding, Preimage, WellFormed;
    var text, other := Serialize(v, 0).value, Serialize(w, 0).value;
    TextPlain(read, v, 0);
    TextPlain(read, w, 0);
    PreimageReads(d, text);
    PreimageReads(e, other);
    PreimageInjective(d, text, e, other);
    CanonicalForm(read, v, w);
  }

  lemma PreimageReads(domain: HashDomain, text: JsString)
    requires WellFormed(text)
    ensures Decoding(Encoded(Preimage(domain, text))) == Some(Preimage(domain, text))
  {
    hide Encoding, Encoded, Decoding, Preimage, WellFormed;
    PreimageWellFormed(domain, text);
    EncodedWellFormed(Preimage(domain, text));
    RoundTrip(Preimage(domain, text));
  }

  // ---------------------------------------------------------------- encoding for the hash

  datatype Progress = Progress(read: nat, bytes: Bytes)

  /** `TextEncoder.prototype.encodeInto`: whole code points, as long as they fit. */
  function EncodeInto(s: JsString, capacity: nat): (p: Progress)
    ensures p.read <= |s| && |p.bytes| <= capacity
  {
    if s == [] then Progress(0, [])
    else
      var width := if StartsWithPair(s) then 2 else 1;
      var first := Encoded(s[..width]);
      if |first| > capacity then Progress(0, [])
      else
        var rest := EncodeInto(s[width..], capacity - |first|);
        Progress(width + rest.read, first + rest.bytes)
  }

  /** What was read completely is encoded completely. */
  lemma {:induction false} EncodedInto(s: JsString, capacity: nat)
    requires EncodeInto(s, capacity).read == |s|
    ensures EncodeInto(s, capacity).bytes == Encoded(s)
  {
    hide Encoded;
    if s == [] {
      NothingEncoded();
    } else {
      var width := if StartsWithPair(s) then 2 else 1;
      EncodedInto(s[width..], capacity - |Encoded(s[..width])|);
      FirstEncoded(s);
    }
  }

  lemma NothingEncoded()
    ensures Encoded([]) == []
  {
  }

  lemma FirstEncoded(s: JsString)
    requires s != []
    ensures var width := if StartsWithPair(s) then 2 else 1; Encoded(s) == Encoded(s[..width]) + Encoded(s[width..])
  {
    var width := if StartsWithPair(s) then 2 else 1;
    var front := s[..width];
    assert CodePoints(front[width..]) == [];
    assert CodePoints(front) == [CodePoints(s)[0]];
    assert CodePoints(s) == CodePoints(front) + CodePoints(s[width..]);
    ReplacedConcat(CodePoints(front), CodePoints(s[width..]));
    EncodeCodePointsConcat(Replaced(CodePoints(front)), Replaced(CodePoints(s[width..])));
  }

  /** `encodeUtf8ForHash`: the buffer of two bytes a unit may be too short, and then all is encoded again. */
  method EncodeUtf8ForHash(value: JsString, hasEncodeInto: bool) returns (bytes: Bytes)
    ensures bytes == Encoded(value)
  {
    if !hasEncodeInto || |value| > MAX_HASH_ENCODE_INTO_UTF16_UNITS {
      return Encoded(value);
    }
    var progress := EncodeInto(value, 2 * |value|);
    if progress.read == |value| {
      EncodedInto(value, 2 * |value|);
      return progress.bytes;
    }
    return Encoded(value);
  }

  /** `hashCanonicalJsonTextPortable` */
  method HashCanonicalJsonText(domain: HashDomain, canonicalJson: JsString, hasEncodeInto: bool)
    returns (result: HashResult)
    requires |Encoded(Preimage(domain, canonicalJson))| < 0x4_0000_0000_0000
    ensures result == HashOf(domain, canonicalJson)
  {
    hide Encoded, Sha256Standard.Sha256;
    var preimage := Prefix(domain) + canonicalJson;
    var bytes := EncodeUtf8ForHash(preimage, hasEncodeInto);
    var digest := Sha256Bytes(bytes);
    var hex := BytesToHex(digest[..]);
    return HashResult(HASH_SCHEME + hex, canonicalJson, preimage);
  }
}
