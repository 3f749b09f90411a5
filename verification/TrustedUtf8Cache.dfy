/**
 The handle registry of `src/base/hashing/portable-sha-256.ts`: issuing, patching and hashing trusted
 texts.
 */
module TrustedUtf8Cache {
  import opened Wrappers
  import opened Utf8
  import opened TextEncoder
  import opened TrustedUtf8
  import opened HashPreimage
  import opened HexText
  import opened Sha256Standard
  import opened Sha256

  // ---------------------------------------------------------------- which patches are accepted

  predicate SuppliedHolds(ranges: set<Range>, r: Replacement)
  {
    match ReadSupplied(r)
    case NotSupplied => true
    case BadlySupplied => false
    case At(start, end) => Range(r.start, r.end, start, end) in ranges
  }

  /** The `i`th replacement is valid after the one before it, and its offsets, if any, are certified. */
  predicate Acceptable(text: JsString, ranges: set<Range>, rs: seq<Replacement>, i: nat)
    requires i < |rs|
  {
    0 <= EndBefore(rs, i) && ValidReplacement(rs[i], EndBefore(rs, i), text) && SuppliedHolds(ranges, rs[i])
  }

  predicate AllAcceptable(text: JsString, ranges: set<Range>, rs: seq<Replacement>)
  {
    forall i :: 0 <= i < |rs| ==> Acceptable(text, ranges, rs, i)
  }

  lemma AllAcceptableStep(text: JsString, ranges: set<Range>, rs: seq<Replacement>)
    requires rs != []
    ensures AllAcceptable(text, ranges, rs) <==>
      AllAcceptable(text, ranges, rs[..|rs| - 1]) && Acceptable(text, ranges, rs, |rs| - 1)
  {
    hide ValidReplacement, SuppliedHolds;
    var n := |rs| - 1;
    forall i | 0 <= i < n ensures Acceptable(text, ranges, rs[..n], i) == Acceptable(text, ranges, rs, i) {
      assert EndBefore(rs[..n], i) == EndBefore(rs, i);
    }
    if AllAcceptable(text, ranges, rs) {
      assert forall i :: 0 <= i < n ==> Acceptable(text, ranges, rs, i);
    }
  }

  /** Nothing but its own check refuses a replacement: the bytes are always where they should be. */
  lemma {:induction false} AcceptedIff(rec: Record, ranges: set<Range>, rs: seq<Replacement>)
    requires rec.bytes == Encoded(rec.text) && AllCertified(rec.text, ranges)
    ensures PreparedAll(rec, ranges, rs).Some? <==> AllAcceptable(rec.text, ranges, rs)
    ensures PreparedAll(rec, ranges, rs).Some? ==> EndOf(PreparedAll(rec, ranges, rs).value) == EndBefore(rs, |rs|)
  {
    hide Encoded, WellFormed, ValidReplacement, SuppliedHolds, AllAcceptable;
    if rs == [] {
      NoneAcceptable(rec.text, ranges);
    } else {
      var n := |rs| - 1;
      AcceptedIff(rec, ranges, rs[..n]);
      AllAcceptableStep(rec.text, ranges, rs);
      if PreparedAll(rec, ranges, rs[..n]).Some? {
        PreparedIsSound(rec, ranges, rs[..n]);
        var front := PreparedAll(rec, ranges, rs[..n]).value;
        SoundEnd(rec, front);
        assert EndBefore(rs, n) == EndBefore(rs[..n], n) == EndOf(front);
        AcceptedOne(rec, ranges, rs[n], EndOf(front));
      }
    }
  }

  lemma NoneAcceptable(text: JsString, ranges: set<Range>)
    ensures AllAcceptable(text, ranges, [])
  {
  }

  lemma AcceptedOne(rec: Record, ranges: set<Range>, r: Replacement, cursor: nat)
    requires rec.bytes == Encoded(rec.text) && AllCertified(rec.text, ranges)
    requires cursor <= |rec.text| && ScalarBoundary(rec.text, cursor)
    ensures PreparedOne(rec, ranges, r, cursor, Utf8Offset(rec.text, cursor)).Some?
       <==> ValidReplacement(r, cursor, rec.text) && SuppliedHolds(ranges, r)
  {
    hide Encoded, WellFormed;
    if ValidReplacement(r, cursor, rec.text) {
      SoundResolved(rec, ranges, r, cursor);
      SliceEncoded(rec.text, cursor, r.start);
      SliceEncoded(rec.text, r.start, r.end);
      var supplied := ReadSupplied(r);
      if supplied.At? && Range(r.start, r.end, supplied.start, supplied.end) in ranges {
        assert Certified(rec.text, Range(r.start, r.end, supplied.start, supplied.end));
      }
    }
  }

  function Unsupplied(r: Replacement): Replacement { r.(startUtf8 := None, endUtf8 := None) }

  /** Scanning instead of trusting the supplied offsets prepares the same replacements. */
  lemma {:induction false} SuppliedOffsetsAgree(rec: Record, ranges: set<Range>, rs: seq<Replacement>,
                                                scanned: seq<Replacement>)
    requires rec.bytes == Encoded(rec.text) && AllCertified(rec.text, ranges)
    requires |scanned| == |rs| && forall i :: 0 <= i < |rs| ==> scanned[i] == Unsupplied(rs[i])
    requires PreparedAll(rec, ranges, rs).Some?
    ensures PreparedAll(rec, {}, scanned) == PreparedAll(rec, ranges, rs)
  {
    hide Encoded, WellFormed;
    if rs != [] {
      var n := |rs| - 1;
      SuppliedOffsetsAgree(rec, ranges, rs[..n], scanned[..n]);
      PreparedIsSound(rec, ranges, rs[..n]);
      var front := PreparedAll(rec, ranges, rs[..n]).value;
      SoundEnd(rec, front);
      AgreesOne(rec, ranges, rs[n], EndOf(front));
    }
  }

  lemma AgreesOne(rec: Record, ranges: set<Range>, r: Replacement, cursor: nat)
    requires rec.bytes == Encoded(rec.text) && AllCertified(rec.text, ranges)
    requires cursor <= |rec.text| && ScalarBoundary(rec.text, cursor)
    requires PreparedOne(rec, ranges, r, cursor, Utf8Offset(rec.text, cursor)).Some?
    ensures PreparedOne(rec, {}, Unsupplied(r), cursor, Utf8Offset(rec.text, cursor))
         == PreparedOne(rec, ranges, r, cursor, Utf8Offset(rec.text, cursor))
  {
    hide Encoded, WellFormed;
    SoundResolved(rec, ranges, r, cursor);
    SoundResolved(rec, {}, Unsupplied(r), cursor);
  }

  // ---------------------------------------------------------------- the ranges a patch certifies

  ghost function NextRange(rec: Record, ps: seq<Prepared>): Range
    requires Fits(rec, ps) && ps != []
  {
    var texts, last := Pieces(rec, ps), ps[|ps| - 1];
    Range(|Joined(texts)| - |last.text|, |Joined(texts)|, |BytesBefore(rec, ps)| - |last.utf8|, |BytesBefore(rec, ps)|)
  }

  lemma {:induction false} FitsPrefix(rec: Record, ps: seq<Prepared>, k: nat)
    requires Fits(rec, ps) && k <= |ps|
    ensures Fits(rec, ps[..k])
  {
    if k < |ps| {
      FitsPrefix(rec, ps[..|ps| - 1], k);
      assert ps[..|ps| - 1][..k] == ps[..k];
    } else {
      assert ps[..k] == ps;
    }
  }

  lemma {:induction false} SoundPrefix(rec: Record, ps: seq<Prepared>, k: nat)
    requires Sound(rec, ps) && k <= |ps|
    ensures Sound(rec, ps[..k])
  {
    hide Encoded, WellFormed;
    if k < |ps| {
      SoundPrefix(rec, ps[..|ps| - 1], k);
      assert ps[..|ps| - 1][..k] == ps[..k];
    } else {
      assert ps[..k] == ps;
    }
  }

  /** The text patched so far is a prefix of the whole patched text. */
  lemma {:induction false} PatchedPrefix(rec: Record, ps: seq<Prepared>, k: nat)
    requires Fits(rec, ps) && k <= |ps|
    ensures Fits(rec, ps[..k]) && Joined(Pieces(rec, ps[..k])) <= Joined(Pieces(rec, ps))
  {
    hide Encoded;
    FitsPrefix(rec, ps, k);
    if k < |ps| {
      var front, last := ps[..|ps| - 1], ps[|ps| - 1];
      PatchedPrefix(rec, front, k);
      assert front[..k] == ps[..k];
      TwoMore(Pieces(rec, front), rec.text[EndOf(front)..last.start], last.text);
    } else {
      assert ps[..k] == ps;
    }
  }

  /** The pieces up to some replacement are the first pieces. */
  lemma {:induction false} PiecesPrefix(rec: Record, ps: seq<Prepared>, k: nat)
    requires Fits(rec, ps) && k <= |ps|
    ensures Fits(rec, ps[..k]) && |Pieces(rec, ps[..k])| <= |Pieces(rec, ps)|
    ensures Pieces(rec, ps)[..|Pieces(rec, ps[..k])|] == Pieces(rec, ps[..k])
  {
    FitsPrefix(rec, ps, k);
    if k < |ps| {
      PiecesPrefix(rec, ps[..|ps| - 1], k);
      assert ps[..|ps| - 1][..k] == ps[..k];
    } else {
      assert ps[..k] == ps;
    }
  }

  /** After a clean patch the range of the `k`th replacement holds of the patched text. */
  lemma NextRangeCertified(rec: Record, ps: seq<Prepared>, k: nat)
    requires rec.bytes == Encoded(rec.text) && Sound(rec, ps) && Fits(rec, ps) && k < |ps|
    requires UncleanJoins(AllPieces(rec, ps)) == 0
    ensures Fits(rec, ps[..k + 1]) && Certified(PatchedText(rec, ps), NextRange(rec, ps[..k + 1]))
  {
    hide Encoded, WellFormed, UncleanJoins, Pieces;
    PatchedPrefix(rec, ps, k + 1);
    SoundPrefix(rec, ps, k + 1);
    SoundEnd(rec, ps);
    OneMore(Pieces(rec, ps), rec.text[EndOf(ps)..]);
    PiecesPrefix(rec, ps, k + 1);
    var n := |Pieces(rec, ps[..k + 1])|;
    assert AllPieces(rec, ps)[..n] == Pieces(rec, ps[..k + 1]);
    UncleanPrefix(AllPieces(rec, ps), n);
    PrefixCertified(rec, ps[..k + 1], PatchedText(rec, ps));
  }

  lemma PrefixCertified(rec: Record, ps: seq<Prepared>, text: JsString)
    requires rec.bytes == Encoded(rec.text) && Sound(rec, ps) && Fits(rec, ps) && ps != []
    requires Joined(Pieces(rec, ps)) <= text && UncleanJoins(Pieces(rec, ps)) == 0
    ensures Certified(text, NextRange(rec, ps))
  {
    hide Encoded, WellFormed, UncleanJoins, Pieces, BytesBefore, Fits, Sound, Joined;
    var last := ps[|ps| - 1];
    var before := BeforeLast(rec, ps);
    UncleanPrefix(Pieces(rec, ps), |before|);
    OneMore(before, last.text);
    BytesAreEncodedPieces(rec, ps);
    assert JoinedBytes(Pieces(rec, ps)) == JoinedBytes(before) + last.utf8;
    OffsetAfterPieces(text, before);
    OffsetAfterPieces(text, Pieces(rec, ps));
  }

  lemma BeforeLast(rec: Record, ps: seq<Prepared>) returns (before: seq<JsString>)
    requires Sound(rec, ps) && Fits(rec, ps) && ps != []
    ensures Pieces(rec, ps) == before + [ps[|ps| - 1].text] && Pieces(rec, ps)[..|before|] == before
    ensures ps[|ps| - 1].utf8 == Encoded(ps[|ps| - 1].text)
  {
    hide Encoded, WellFormed;
    var front, last := ps[..|ps| - 1], ps[|ps| - 1];
    before := Pieces(rec, front) + [rec.text[EndOf(front)..last.start]];
  }

  lemma OffsetAfterPieces(text: JsString, pieces: seq<JsString>)
    requires Joined(pieces) <= text && UncleanJoins(pieces) == 0
    ensures Utf8Offset(text, |Joined(pieces)|) == |JoinedBytes(pieces)|
  {
    hide Encoded, WellFormed;
    PiecewiseExactIff(pieces);
    assert text[..|Joined(pieces)|] == Joined(pieces);
  }

  // ---------------------------------------------------------------- filling the preallocated bytes

  /** The length computed ahead: the source length, and for each replacement what it adds. */
  function NextLength(rec: Record, ps: seq<Prepared>): int
  {
    if ps == [] then |rec.bytes|
    else
      var last := ps[|ps| - 1];
      NextLength(rec, ps[..|ps| - 1]) + |last.utf8| - (last.endUtf8 - last.startUtf8)
  }

  lemma {:induction false} BytesBeforeLength(rec: Record, ps: seq<Prepared>)
    requires Fits(rec, ps)
    ensures |BytesBefore(rec, ps)| + |rec.bytes| - EndUtf8Of(ps) == NextLength(rec, ps)
  {
    if ps != [] {
      BytesBeforeLength(rec, ps[..|ps| - 1]);
    }
  }

  lemma {:induction false} BytesPrefix(rec: Record, ps: seq<Prepared>, k: nat)
    requires Fits(rec, ps) && k <= |ps|
    ensures Fits(rec, ps[..k]) && BytesBefore(rec, ps[..k]) <= BytesBefore(rec, ps)
  {
    FitsPrefix(rec, ps, k);
    if k < |ps| {
      BytesPrefix(rec, ps[..|ps| - 1], k);
      assert ps[..|ps| - 1][..k] == ps[..k];
    } else {
      assert ps[..k] == ps;
    }
  }

  ghost function AppliedAll(rec: Record, ps: seq<Prepared>): seq<Applied>
    requires Fits(rec, ps)
  {
    if ps == [] then []
    else
      var last := ps[|ps| - 1];
      AppliedAll(rec, ps[..|ps| - 1]) +
      [Applied(last.startUtf8, last.endUtf8, |BytesBefore(rec, ps)| - |last.utf8|, |BytesBefore(rec, ps)|)]
  }

  ghost function NextRanges(rec: Record, ps: seq<Prepared>): set<Range>
    requires Fits(rec, ps)
  {
    if ps == [] then {} else NextRanges(rec, ps[..|ps| - 1]) + {NextRange(rec, ps)}
  }

  /** `Uint8Array.prototype.set` */
  method CopyInto(target: array<Byte>, at: nat, source: Bytes)
    requires at + |source| <= target.Length
    modifies target
    ensures target[..at + |source|] == old(target[..at]) + source
  {
    for i := 0 to |source|
      invariant target[..at] == old(target[..at])
      invariant forall k :: 0 <= k < i ==> target[at + k] == source[k]
    {
      target[at + i] := source[i];
    }
  }

  datatype Built = Built(text: JsString, applied: seq<Applied>, ranges: set<Range>)

  /** The loop of `patchTrustedCanonicalUtf8Text`: the bytes have exactly the length computed ahead. */
  method BuildPatched(rec: Record, ps: seq<Prepared>, nextUtf8Length: nat)
    returns (built: Built, nextBytes: array<Byte>)
    requires Fits(rec, ps) && nextUtf8Length == NextLength(rec, ps)
    ensures built == Built(PatchedText(rec, ps), AppliedAll(rec, ps), NextRanges(rec, ps))
    ensures nextBytes.Length == nextUtf8Length && nextBytes[..] == PatchedBytes(rec, ps)
  {
    hide Encoded, NextLength, Joined, Pieces, BytesBefore, AppliedAll, NextRanges, NextRange, Fits;
    StartBuilding(rec, ps);
    var textParts: seq<JsString> := [];
    nextBytes := new Byte[nextUtf8Length](_ => 0);
    var sourceUtf16Cursor: nat, sourceUtf8Cursor: nat, nextUtf8Cursor: nat, nextUtf16Cursor: nat := 0, 0, 0, 0;
    var applied: seq<Applied> := [];
    var ranges: set<Range> := {};
    for i := 0 to |ps|
      invariant Fits(rec, ps[..i])
      invariant sourceUtf16Cursor == EndOf(ps[..i]) && sourceUtf8Cursor == EndUtf8Of(ps[..i])
      invariant textParts == Pieces(rec, ps[..i]) && nextUtf16Cursor == |Joined(textParts)|
      invariant nextUtf8Cursor <= nextBytes.Length && nextBytes[..nextUtf8Cursor] == BytesBefore(rec, ps[..i])
      invariant applied == AppliedAll(rec, ps[..i]) && ranges == NextRanges(rec, ps[..i])
    {
      StepFits(rec, ps, i, nextUtf8Length);
      BuildingStep(rec, ps, i);
      ReportingStep(rec, ps, i);
      var p := ps[i];
      var unchangedText := rec.text[sourceUtf16Cursor..p.start];
      TwoMore(textParts, unchangedText, p.text);
      textParts := textParts + [unchangedText, p.text];
      nextUtf16Cursor := nextUtf16Cursor + |unchangedText|;
      var nextStartUtf16 := nextUtf16Cursor;
      nextUtf16Cursor := nextUtf16Cursor + |p.text|;
      var unchangedBytes := rec.bytes[sourceUtf8Cursor..p.startUtf8];
      CopyTwo(nextBytes, nextUtf8Cursor, unchangedBytes, p.utf8);
      var nextStartUtf8 := nextUtf8Cursor + |unchangedBytes|;
      nextUtf8Cursor := nextStartUtf8 + |p.utf8|;
      applied := applied + [Applied(p.startUtf8, p.endUtf8, nextStartUtf8, nextUtf8Cursor)];
      ranges := ranges + {Range(nextStartUtf16, nextUtf16Cursor, nextStartUtf8, nextUtf8Cursor)};
      sourceUtf16Cursor, sourceUtf8Cursor := p.end, p.endUtf8;
    }
    assert ps[..|ps|] == ps;
    BytesBeforeLength(rec, ps);
    FitsEnds(rec, ps);
    CopyInto(nextBytes, nextUtf8Cursor, rec.bytes[sourceUtf8Cursor..]);
    OneMore(textParts, rec.text[sourceUtf16Cursor..]);
    built := Built(Joined(textParts + [rec.text[sourceUtf16Cursor..]]), applied, ranges);
  }

  lemma StartBuilding(rec: Record, ps: seq<Prepared>)
    requires Fits(rec, ps)
    ensures ps[..0] == [] && Fits(rec, []) && Joined([]) == [] && Pieces(rec, []) == [] && BytesBefore(rec, []) == []
    ensures AppliedAll(rec, []) == [] && NextRanges(rec, []) == {}
  {
  }

  /** What the `i`th replacement adds to the pieces and to the bytes. */
  lemma BuildingStep(rec: Record, ps: seq<Prepared>, i: nat)
    requires i < |ps| && Fits(rec, ps[..i]) && Fits(rec, ps[..i + 1])
    ensures var p, front, more := ps[i], ps[..i], ps[..i + 1];
            EndOf(front) <= p.start <= |rec.text| && EndUtf8Of(front) <= p.startUtf8 <= |rec.bytes| &&
            EndOf(more) == p.end && EndUtf8Of(more) == p.endUtf8 &&
            Pieces(rec, more) == Pieces(rec, front) + [rec.text[EndOf(front)..p.start], p.text] &&
            BytesBefore(rec, more) == BytesBefore(rec, front) + rec.bytes[EndUtf8Of(front)..p.startUtf8] + p.utf8
  {
    assert ps[..i + 1][..i] == ps[..i] && ps[..i + 1][i] == ps[i];
  }

  /** What it adds to the reports. */
  lemma ReportingStep(rec: Record, ps: seq<Prepared>, i: nat)
    requires i < |ps| && Fits(rec, ps[..i]) && Fits(rec, ps[..i + 1])
    ensures var p, front, more := ps[i], ps[..i], ps[..i + 1];
            AppliedAll(rec, more) == AppliedAll(rec, front) +
              [Applied(p.startUtf8, p.endUtf8, |BytesBefore(rec, more)| - |p.utf8|, |BytesBefore(rec, more)|)] &&
            NextRanges(rec, more) == NextRanges(rec, front) +
              {Range(|Joined(Pieces(rec, more))| - |p.text|, |Joined(Pieces(rec, more))|,
                     |BytesBefore(rec, more)| - |p.utf8|, |BytesBefore(rec, more)|)}
  {
    hide Joined, BytesBefore, Pieces;
    assert ps[..i + 1][..i] == ps[..i] && ps[..i + 1][i] == ps[i];
  }

  method CopyTwo(target: array<Byte>, at: nat, first: Bytes, second: Bytes)
    requires at + |first| + |second| <= target.Length
    modifies target
    ensures target[..at + |first| + |second|] == old(target[..at]) + first + second
  {
    CopyInto(target, at, first);
    CopyInto(target, at + |first|, second);
  }

  /** Everything the `i`th step copies fits the preallocated bytes. */
  lemma StepFits(rec: Record, ps: seq<Prepared>, i: nat, length: nat)
    requires Fits(rec, ps) && i < |ps| && length == NextLength(rec, ps)
    ensures ps[..i + 1][..i] == ps[..i] && Fits(rec, ps[..i + 1]) && Fits(rec, ps[..i])
    ensures |BytesBefore(rec, ps[..i + 1])| <= length
  {
    BytesPrefix(rec, ps, i + 1);
    FitsPrefix(rec, ps, i);
    BytesBeforeLength(rec, ps);
    FitsEnds(rec, ps);
  }

  /** `prepareTrustedUtf8Replacements` */
  method PrepareReplacements(rec: Record, ranges: set<Range>, rs: seq<Replacement>)
    returns (prepared: Option<seq<Prepared>>, nextUtf8Length: int)
    ensures prepared == PreparedAll(rec, ranges, rs)
    ensures prepared.Some? ==> nextUtf8Length == NextLength(rec, prepared.value)
  {
    var ps: seq<Prepared> := [];
    nextUtf8Length := |rec.bytes|;
    for i := 0 to |rs|
      invariant PreparedAll(rec, ranges, rs[..i]) == Some(ps) && nextUtf8Length == NextLength(rec, ps)
    {
      assert rs[..i + 1][..i] == rs[..i];
      var p := PrepareOne(rec, ranges, rs[i], EndOf(ps), EndUtf8Of(ps));
      if p.None? {
        RefusedStays(rec, ranges, rs, i + 1);
        return None, 0;
      }
      assert (ps + [p.value])[..|ps|] == ps;
      nextUtf8Length := nextUtf8Length + |p.value.utf8| - (p.value.endUtf8 - p.value.startUtf8);
      ps := ps + [p.value];
    }
    assert rs[..|rs|] == rs;
    prepared := Some(ps);
  }

  method PrepareOne(rec: Record, ranges: set<Range>, r: Replacement, cursor: nat, cursorUtf8: nat)
    returns (p: Option<Prepared>)
    ensures p == PreparedOne(rec, ranges, r, cursor, cursorUtf8)
  {
    if !ValidReplacement(r, cursor, rec.text) {
      return None;
    }
    var supplied := ReadSupplied(r);
    if supplied.BadlySupplied? || (supplied.At? && Range(r.start, r.end, supplied.start, supplied.end) !in ranges) {
      return None;
    }
    var previous := Encoded(rec.text[r.start..r.end]);
    var start := TrustedStart(rec, r, cursor, cursorUtf8);
    var equal := BytesEqualAt(rec.bytes, previous, start);
    if start < cursorUtf8 || (supplied.At? && supplied.end != start + |previous|) || !equal {
      return None;
    }
    return Some(Prepared(r.start, r.end, r.text, start, start + |previous|, Encoded(r.text)));
  }

  lemma {:induction false} RefusedStays(rec: Record, ranges: set<Range>, rs: seq<Replacement>, k: nat)
    requires k <= |rs| && PreparedAll(rec, ranges, rs[..k]).None?
    ensures PreparedAll(rec, ranges, rs).None?
  {
    if k < |rs| {
      RefusedStays(rec, ranges, rs[..|rs| - 1], k) by { assert rs[..|rs| - 1][..k] == rs[..k]; }
    } else {
      assert rs[..k] == rs;
    }
  }

  // ---------------------------------------------------------------- the registry

  /** `TrustedCanonicalUtf8Text`: opaque, told apart by identity. */
  class Handle {
    const utf16Length: nat
    const utf8ByteLength: nat

    constructor (utf16Length: nat, utf8ByteLength: nat)
      ensures this.utf16Length == utf16Length && this.utf8ByteLength == utf8ByteLength
    {
      this.utf16Length := utf16Length;
      this.utf8ByteLength := utf8ByteLength;
    }
  }

  datatype Patched = Patched(canonicalText: JsString, utf8: Handle, replacements: seq<Applied>)

  /** Exact and certified: what a handle promises. */
  ghost predicate ExactHandle(h: Handle, rec: Record, ranges: set<Range>)
  {
    rec.bytes == Encoded(rec.text) && AllCertified(rec.text, ranges) &&
    h.utf16Length == |rec.text| && h.utf8ByteLength == |rec.bytes|
  }

  /** The accepted replacements of a patch, if it is accepted. */
  function Accepted(records: map<Handle, Record>, ranges: map<Handle, set<Range>>, h: Handle,
                    rs: seq<Replacement>): Option<seq<Prepared>>
  {
    if h !in records then None else PreparedAll(records[h], RangesOf(ranges, h), rs)
  }

  function RangesOf(ranges: map<Handle, set<Range>>, h: Handle): set<Range> { if h in ranges then ranges[h] else {} }

  ghost predicate AllExact(records: map<Handle, Record>, ranges: map<Handle, set<Range>>)
  {
    ranges.Keys <= records.Keys && forall h :: h in records ==> ExactHandle(h, records[h], RangesOf(ranges, h))
  }

  /** One more handle: all are exact exactly when the new one is. */
  lemma OneMoreHandle(records: map<Handle, Record>, ranges: map<Handle, set<Range>>, h: Handle, rec: Record,
                      certified: set<Range>)
    requires AllExact(records, ranges) && h !in records
    ensures AllExact(records[h := rec], ranges[h := certified]) <==> ExactHandle(h, rec, certified)
  {
    hide ExactHandle;
    var after := records[h := rec];
    assert h in after && RangesOf(ranges[h := certified], h) == certified;
    forall h' | h' in records
      ensures after[h'] == records[h'] && RangesOf(ranges[h := certified], h') == RangesOf(ranges, h')
    {}
  }

  class TrustedTexts {
    var records: map<Handle, Record>
    var ranges: map<Handle, set<Range>>

    ghost predicate Valid()
      reads this
    {
      AllExact(records, ranges)
    }

    constructor ()
      ensures Valid() && records == map[] && ranges == map[]
    {
      records, ranges := map[], map[];
    }

    /** `installTrustedCanonicalUtf8Text` */
    method Install(text: JsString, bytes: Bytes) returns (h: Handle)
      modifies `records
      ensures fresh(h) && records == old(records)[h := Record(text, bytes)]
      ensures h.utf16Length == |text| && h.utf8ByteLength == |bytes|
    {
      h := new Handle(|text|, |bytes|);
      records := records[h := Record(text, bytes)];
    }

    /** `createTrustedCanonicalUtf8Text`, of any text. */
    method Create(canonicalText: JsString) returns (h: Handle)
      requires Valid()
      modifies this
      ensures Valid() && fresh(h)
      ensures records == old(records)[h := Record(canonicalText, Encoded(canonicalText))] && ranges == old(ranges)
    {
      hide Encoded;
      h := Install(canonicalText, Encoded(canonicalText));
    }

    /** `patchTrustedCanonicalUtf8Text`: what is promised stays so exactly as long as the patches join
        cleanly, as all patches of well-formed text do. */
    method Patch(source: Handle, rs: seq<Replacement>) returns (r: Option<Patched>)
      modifies this
      ensures r.None? <==> Accepted(old(records), old(ranges), source, rs).None?
      ensures r.None? ==> records == old(records) && ranges == old(ranges)
      ensures r.Some? ==>
        var rec, ps := old(records)[source], Accepted(old(records), old(ranges), source, rs).value;
        Fits(rec, ps) && fresh(r.value.utf8) && r.value.canonicalText == PatchedText(rec, ps) &&
        r.value.replacements == AppliedAll(rec, ps) &&
        records == old(records)[r.value.utf8 := Record(PatchedText(rec, ps), PatchedBytes(rec, ps))] &&
        ranges == old(ranges)[r.value.utf8 := NextRanges(rec, ps)]
      ensures old(Valid()) && r.Some? ==>
        var text := old(records)[source].text;
        InOrder(text, rs) && r.value.canonicalText == Joined(AllCuts(text, rs)) &&
        (Valid() <==> JoinsCleanly(text, rs)) &&
        (WellFormed(text) ==> JoinsCleanly(text, rs) && WellFormed(r.value.canonicalText))
    {
      hide Encoded, Encoding, WellFormed, PreparedAll, JoinsCleanly, AllCuts, PatchedText, PatchedBytes, AppliedAll,
           NextRanges, Fits, Certified, AllCertified;
      if source !in records {
        return None;
      }
      var rec, known := records[source], RangesOf(ranges, source);
      var prepared, nextUtf8Length := PrepareReplacements(rec, known, rs);
      if prepared.None? {
        return None;
      }
      var ps := prepared.value;
      PreparedCuts(rec, known, rs);
      BytesBeforeLength(rec, ps);
      FitsEnds(rec, ps);
      var built, nextBytes := BuildPatched(rec, ps, nextUtf8Length);
      var utf8 := Install(built.text, nextBytes[..]);
      ranges := ranges[utf8 := built.ranges];
      r := Some(Patched(built.text, utf8, built.applied));
      if old(Valid()) {
        assert ExactHandle(source, rec, known);
        PatchKeepsExact(rec, known, rs);
        OneMoreHandle(old(records), old(ranges), utf8, records[utf8], ranges[utf8]);
      }
    }

    /** `hashTrustedCanonicalJsonTextPortable`: the cached bytes hash to what the whole text hashes to. */
    method HashTrusted(domain: HashDomain, trusted: Handle) returns (result: Option<HashResult>)
      requires Valid()
      requires trusted in records ==> |Encoded(Prefix(domain))| + |records[trusted].bytes| < 0x4_0000_0000_0000
      ensures result == if trusted in records then Some(HashOf(domain, records[trusted].text)) else None
    {
      hide Encoded, WellFormed, Sha256Standard.Sha256, Prefix;
      if trusted !in records {
        return None;
      }
      var rec := records[trusted];
      assert ExactHandle(trusted, rec, RangesOf(ranges, trusted));
      PreimageWellFormed(domain, rec.text);
      EncodedConcat(Prefix(domain), rec.text);
      var digest := Sha256Bytes(Encoded(Prefix(domain)) + rec.bytes);
      var hex := BytesToHex(digest[..]);
      return Some(HashResult(HASH_SCHEME + hex, rec.text, Prefix(domain) + rec.text));
    }
  }

  /** A patch that joins cleanly is exact and certified again, whatever the text. */
  lemma PatchKeepsExact(rec: Record, ranges: set<Range>, rs: seq<Replacement>)
    requires rec.bytes == Encoded(rec.text) && AllCertified(rec.text, ranges) && PreparedAll(rec, ranges, rs).Some?
    ensures var ps := PreparedAll(rec, ranges, rs).value;
            Fits(rec, ps) && InOrder(rec.text, rs) && PatchedText(rec, ps) == Joined(AllCuts(rec.text, rs)) &&
            (PatchedBytes(rec, ps) == Encoded(PatchedText(rec, ps)) <==> JoinsCleanly(rec.text, rs)) &&
            (JoinsCleanly(rec.text, rs) ==> AllCertified(PatchedText(rec, ps), NextRanges(rec, ps))) &&
            (WellFormed(rec.text) ==> JoinsCleanly(rec.text, rs) && WellFormed(PatchedText(rec, ps)))
  {
    hide Encoded, Encoding, WellFormed, PreparedAll, UncleanJoins, AllCuts, NextRanges, Certified, AllCertified;
    PatchExactIff(rec, ranges, rs);
    PreparedIsSound(rec, ranges, rs);
    PreparedAllCuts(rec, ranges, rs);
    var ps := PreparedAll(rec, ranges, rs).value;
    if JoinsCleanly(rec.text, rs) {
      NextRangesCertified(rec, ps, |ps|);
      assert ps[..|ps|] == ps;
    }
    if WellFormed(rec.text) { PatchExact(rec, ranges, rs); }
  }

  lemma {:induction false} NextRangesCertified(rec: Record, ps: seq<Prepared>, k: nat)
    requires rec.bytes == Encoded(rec.text) && Sound(rec, ps) && Fits(rec, ps) && k <= |ps|
    requires UncleanJoins(AllPieces(rec, ps)) == 0
    ensures Fits(rec, ps[..k]) && AllCertified(PatchedText(rec, ps), NextRanges(rec, ps[..k]))
  {
    hide Encoded, WellFormed, Certified, PatchedText, NextRange, Sound, UncleanJoins;
    FitsPrefix(rec, ps, k);
    if k > 0 {
      NextRangesCertified(rec, ps, k - 1);
      NextRangeCertified(rec, ps, k - 1);
      assert ps[..k][..k - 1] == ps[..k - 1];
    }
  }

  // ---------------------------------------------------------------- beyond well-formed text

  /** Without lone surrogates being excluded the cache is not exact: deleting the letter between a
      high and a low surrogate keeps six bytes for a pair that takes four. */
  lemma LoneSurrogatesBreakThePatch()
    ensures var text: JsString := [0xD800, 0x78, 0xDC00];
            var rec := Record(text, Encoded(text));
            var ps := PreparedAll(rec, {}, [Replacement(1, 2, [], None, None)]);
            ps.Some? && Fits(rec, ps.value) && PatchedText(rec, ps.value) == [0xD800, 0xDC00] &&
            PatchedBytes(rec, ps.value) != Encoded(PatchedText(rec, ps.value))
  {
    hide Encoded, PreparedAll, PatchedText, PatchedBytes, UncleanJoins, AllCuts;
    var text: JsString := [0xD800, 0x78, 0xDC00];
    DeletionIsAccepted(text);
    DeletionCuts(text);
    PatchExactIff(Record(text, Encoded(text)), {}, [Replacement(1, 2, [], None, None)]);
    OnePieceUnclean([[0xD800], [], [0xDC00]]);
  }

  lemma DeletionIsAccepted(text: JsString)
    requires text == [0xD800, 0x78, 0xDC00]
    ensures PreparedAll(Record(text, Encoded(text)), {}, [Replacement(1, 2, [], None, None)]).Some?
  {
    hide Encoded, PreparedAll;
    var r := Replacement(1, 2, [], None, None);
    assert WellFormed([]) by { assert CodePoints([]) == []; }
    AllAcceptableStep(text, {}, [r]);
    NoneAcceptable(text, {});
    assert [r][..0] == [];
    AcceptedIff(Record(text, Encoded(text)), {}, [r]);
  }

  lemma DeletionCuts(text: JsString)
    requires text == [0xD800, 0x78, 0xDC00]
    ensures var rs := [Replacement(1, 2, [], None, None)];
            InOrder(text, rs) && AllCuts(text, rs) == [[0xD800], [], [0xDC00]]
  {
    var rs := [Replacement(1, 2, [], None, None)];
    assert rs[..0] == [];
    NoCuts(text);
    CutsLast(text, rs);
    assert text[0..1] == [0xD800] && text[2..] == [0xDC00];
  }

  lemma OnePieceUnclean(ps: seq<JsString>)
    requires ps == [[0xD800], [], [0xDC00]]
    ensures UncleanJoins(ps) == 1 && Joined(ps) == [0xD800, 0xDC00]
  {
    hide Encoded;
    var one, two: seq<JsString> := [[0xD800]], [[0xD800], []];
    assert ps[..2] == two && two[..1] == one && one[..0] == [];
    OneMore([], [0xD800]);
    OneMore(one, []);
    OneMore(two, [0xDC00]);
    assert UncleanJoins(one) == 0 && UncleanJoins(two) == 0;
  }
}
