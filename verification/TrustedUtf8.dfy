/**
 The trusted UTF-8 cache of `src/base/hashing/portable-sha-256.ts`: handles that pair a text with its
 bytes, patched in place of being encoded again, with certified byte offsets that save scanning the
 text before a replacement.
 */
module TrustedUtf8 {
  import opened Wrappers
  import opened Utf8
  import opened TextEncoder
  import opened CanonicalJson
  import WalRecord

  datatype Record = Record(text: JsString, bytes: Bytes)

  /** The four numbers of `trustedRangeKey`; the key text stands for them (`RangeKeyInjective`). */
  datatype Range = Range(startUtf16: int, endUtf16: int, startUtf8: int, endUtf8: int)

  datatype Replacement = Replacement(start: int, end: int, text: JsString, startUtf8: Option<int>, endUtf8: Option<int>)

  datatype Prepared = Prepared(start: nat, end: nat, text: JsString, startUtf8: nat, endUtf8: nat, utf8: Bytes)

  datatype Applied = Applied(sourceStartUtf8: nat, sourceEndUtf8: nat, nextStartUtf8: nat, nextEndUtf8: nat)

  datatype Supplied = NotSupplied | BadlySupplied | At(start: int, end: int)

  // ---------------------------------------------------------------- range keys

  /** `trustedRangeKey`, on offsets that are not negative. */
  function RangeKey(a: nat, b: nat, c: nat, d: nat): JsString
  {
    WalRecord.Decimal(a) + [COLON] +
      (WalRecord.Decimal(b) + [COLON] + (WalRecord.Decimal(c) + [COLON] + WalRecord.Decimal(d)))
  }

  lemma DecimalHasNoColon(n: nat)
    ensures forall i :: 0 <= i < |WalRecord.Decimal(n)| ==> WalRecord.Decimal(n)[i] != COLON
    ensures WalRecord.DecimalRead(WalRecord.Decimal(n)) == n
  {
    WalRecord.DecimalRoundTrip(n);
  }

  /** Equal keys are equal ranges. */
  lemma RangeKeyInjective(a: nat, b: nat, c: nat, d: nat, a': nat, b': nat, c': nat, d': nat)
    requires RangeKey(a, b, c, d) == RangeKey(a', b', c', d')
    ensures a == a' && b == b' && c == c' && d == d'
  {
    hide WalRecord.Decimal, WalRecord.DecimalRead;
    DecimalHasNoColon(a);
    DecimalHasNoColon(a');
    DecimalHasNoColon(b);
    DecimalHasNoColon(b');
    DecimalHasNoColon(c);
    DecimalHasNoColon(c');
    DecimalHasNoColon(d);
    DecimalHasNoColon(d');
    var cd := WalRecord.Decimal(c) + [COLON] + WalRecord.Decimal(d);
    var cd' := WalRecord.Decimal(c') + [COLON] + WalRecord.Decimal(d');
    var bcd, bcd' := WalRecord.Decimal(b) + [COLON] + cd, WalRecord.Decimal(b') + [COLON] + cd';
    SeparatorIsUnique(WalRecord.Decimal(a), bcd, WalRecord.Decimal(a'), bcd', COLON);
    SeparatorIsUnique(WalRecord.Decimal(b), cd, WalRecord.Decimal(b'), cd', COLON);
    SeparatorIsUnique(WalRecord.Decimal(c), WalRecord.Decimal(d), WalRecord.Decimal(c'), WalRecord.Decimal(d'), COLON);
  }

  // ---------------------------------------------------------------- checking one replacement

  predicate IsSafe(x: int) { -WalRecord.MAX_SAFE_INTEGER <= x <= WalRecord.MAX_SAFE_INTEGER }

  /** `readSuppliedUtf8Offsets` */
  function ReadSupplied(r: Replacement): Supplied
  {
    if r.startUtf8.None? && r.endUtf8.None? then NotSupplied
    else if r.startUtf8.None? || r.endUtf8.None? then BadlySupplied
    else
      var start, end := r.startUtf8.value, r.endUtf8.value;
      if IsSafe(start) && IsSafe(end) && start >= 0 && end >= start then At(start, end) else BadlySupplied
  }

  /** `isValidTrustedReplacement` */
  predicate ValidReplacement(r: Replacement, minimumStart: nat, source: JsString)
  {
    IsSafe(r.start) && IsSafe(r.end) && minimumStart <= r.start <= r.end <= |source| &&
    ScalarBoundary(source, r.start) && ScalarBoundary(source, r.end) && WellFormed(r.text)
  }

  predicate EqualAt(source: Bytes, expected: Bytes, offset: int)
  {
    0 <= offset && offset + |expected| <= |source| && source[offset..offset + |expected|] == expected
  }

  /** `bytesEqualAt` */
  method BytesEqualAt(source: Bytes, expected: Bytes, offset: int) returns (equal: bool)
    ensures equal <==> EqualAt(source, expected, offset)
  {
    if offset < 0 || offset + |expected| > |source| {
      return false;
    }
    for index := 0 to |expected|
      invariant forall k :: 0 <= k < index ==> source[offset + k] == expected[k]
    {
      if source[offset + index] != expected[index] {
        assert source[offset..offset + |expected|][index] != expected[index];
        return false;
      }
    }
    return true;
  }

  function TrustedStart(rec: Record, r: Replacement, cursor: nat, cursorUtf8: nat): int
    requires cursor <= r.start <= |rec.text|
  {
    match ReadSupplied(r)
    case At(start, _) => start
    case _ => cursorUtf8 + |Encoded(rec.text[cursor..r.start])|
  }

  /** `resolveTrustedReplacementUtf8Offsets`: where the replaced bytes start, if they are there. */
  function Resolved(rec: Record, ranges: set<Range>, r: Replacement, cursor: nat, cursorUtf8: nat): (start: Option<nat>)
    requires ValidReplacement(r, cursor, rec.text)
  {
    var supplied := ReadSupplied(r);
    if supplied.BadlySupplied? then None
    else if supplied.At? && Range(r.start, r.end, supplied.start, supplied.end) !in ranges then None
    else
      var previous := Encoded(rec.text[r.start..r.end]);
      var start := TrustedStart(rec, r, cursor, cursorUtf8);
      if start >= cursorUtf8 && (supplied.At? ==> supplied.end == start + |previous|) &&
         EqualAt(rec.bytes, previous, start)
      then Some(start) else None
  }

  function PreparedOne(rec: Record, ranges: set<Range>, r: Replacement, cursor: nat, cursorUtf8: nat): Option<Prepared>
  {
    if !ValidReplacement(r, cursor, rec.text) then None
    else match Resolved(rec, ranges, r, cursor, cursorUtf8)
      case None => None
      case Some(start) =>
        Some(Prepared(r.start, r.end, r.text, start, start + |Encoded(rec.text[r.start..r.end])|, Encoded(r.text)))
  }

  function EndOf(ps: seq<Prepared>): nat { if ps == [] then 0 else ps[|ps| - 1].end }

  function EndUtf8Of(ps: seq<Prepared>): nat { if ps == [] then 0 else ps[|ps| - 1].endUtf8 }

  /** `prepareTrustedUtf8Replacements` */
  function PreparedAll(rec: Record, ranges: set<Range>, rs: seq<Replacement>): (r: Option<seq<Prepared>>)
    ensures r.Some? ==> |r.value| == |rs|
  {
    if rs == [] then Some([])
    else match PreparedAll(rec, ranges, rs[..|rs| - 1])
      case None => None
      case Some(ps) =>
        match PreparedOne(rec, ranges, rs[|rs| - 1], EndOf(ps), EndUtf8Of(ps))
        case None => None
        case Some(p) => Some(ps + [p])
  }

  // ---------------------------------------------------------------- the patched text and bytes

  /** Sorted, disjoint ranges inside the text and inside the bytes. */
  ghost predicate Fits(rec: Record, ps: seq<Prepared>)
  {
    ps == [] ||
    var front, last := ps[..|ps| - 1], ps[|ps| - 1];
    Fits(rec, front) && EndOf(front) <= last.start <= last.end <= |rec.text| &&
    EndUtf8Of(front) <= last.startUtf8 <= last.endUtf8 <= |rec.bytes|
  }

  /** Unchanged text and replacements, alternating, up to the end of the last replacement. */
  ghost function Pieces(rec: Record, ps: seq<Prepared>): (texts: seq<JsString>)
    requires Fits(rec, ps)
  {
    if ps == [] then []
    else
      var front, last := ps[..|ps| - 1], ps[|ps| - 1];
      Pieces(rec, front) + [rec.text[EndOf(front)..last.start], last.text]
  }

  ghost function BytesBefore(rec: Record, ps: seq<Prepared>): Bytes
    requires Fits(rec, ps)
  {
    if ps == [] then []
    else
      var front, last := ps[..|ps| - 1], ps[|ps| - 1];
      BytesBefore(rec, front) + rec.bytes[EndUtf8Of(front)..last.startUtf8] + last.utf8
  }

  lemma FitsEnds(rec: Record, ps: seq<Prepared>)
    requires Fits(rec, ps)
    ensures EndOf(ps) <= |rec.text| && EndUtf8Of(ps) <= |rec.bytes|
  {
  }

  ghost function AllPieces(rec: Record, ps: seq<Prepared>): seq<JsString>
    requires Fits(rec, ps)
  {
    FitsEnds(rec, ps); Pieces(rec, ps) + [rec.text[EndOf(ps)..]]
  }

  ghost function PatchedText(rec: Record, ps: seq<Prepared>): JsString
    requires Fits(rec, ps)
  {
    Joined(AllPieces(rec, ps))
  }

  ghost function PatchedBytes(rec: Record, ps: seq<Prepared>): Bytes
    requires Fits(rec, ps)
  {
    FitsEnds(rec, ps); BytesBefore(rec, ps) + rec.bytes[EndUtf8Of(ps)..]
  }

  // ---------------------------------------------------------------- the patch a caller sees

  function EndBefore(rs: seq<Replacement>, i: nat): int
    requires i <= |rs|
  {
    if i == 0 then 0 else rs[i - 1].end
  }

  /** Sorted, disjoint replacements inside the text. */
  predicate InOrder(text: JsString, rs: seq<Replacement>)
  {
    forall i :: 0 <= i < |rs| ==> 0 <= EndBefore(rs, i) <= rs[i].start <= rs[i].end <= |text|
  }

  lemma InOrderPrefix(text: JsString, rs: seq<Replacement>)
    requires InOrder(text, rs) && rs != []
    ensures InOrder(text, rs[..|rs| - 1])
  {
    assert forall i :: 0 <= i < |rs| - 1 ==> EndBefore(rs[..|rs| - 1], i) == EndBefore(rs, i);
  }

  /** Kept text and new text, alternating, up to the end of the last replacement. */
  function Cuts(text: JsString, rs: seq<Replacement>): seq<JsString>
    requires InOrder(text, rs)
  {
    if rs == [] then []
    else
      var n := |rs| - 1;
      InOrderPrefix(text, rs);
      Cuts(text, rs[..n]) + [text[EndBefore(rs, n)..rs[n].start], rs[n].text]
  }

  function AllCuts(text: JsString, rs: seq<Replacement>): seq<JsString>
    requires InOrder(text, rs)
  {
    Cuts(text, rs) + [text[EndBefore(rs, |rs|)..]]
  }

  /** No cut of the patch joins a high surrogate to a low one. */
  predicate JoinsCleanly(text: JsString, rs: seq<Replacement>)
    requires InOrder(text, rs)
  {
    UncleanJoins(AllCuts(text, rs)) == 0
  }

  /** Prepared replacements keep the offsets and the texts they came with. */
  lemma {:induction false} PreparedCuts(rec: Record, ranges: set<Range>, rs: seq<Replacement>)
    requires PreparedAll(rec, ranges, rs).Some?
    ensures var ps := PreparedAll(rec, ranges, rs).value;
            Fits(rec, ps) && InOrder(rec.text, rs) && EndOf(ps) == EndBefore(rs, |rs|) &&
            Pieces(rec, ps) == Cuts(rec.text, rs)
  {
    hide PreparedOne, InOrder, Cuts;
    if rs != [] {
      var n := |rs| - 1;
      PreparedCuts(rec, ranges, rs[..n]);
      var front := PreparedAll(rec, ranges, rs[..n]).value;
      PreparedOneFits(rec, ranges, rs[n], EndOf(front), EndUtf8Of(front));
      var p := PreparedOne(rec, ranges, rs[n], EndOf(front), EndUtf8Of(front)).value;
      assert (front + [p])[..|front|] == front;
      assert EndBefore(rs[..n], n) == EndBefore(rs, n);
      CutsLast(rec.text, rs);
    } else {
      NoCuts(rec.text);
    }
  }

  lemma PreparedOneFits(rec: Record, ranges: set<Range>, r: Replacement, cursor: nat, cursorUtf8: nat)
    requires PreparedOne(rec, ranges, r, cursor, cursorUtf8).Some?
    ensures var p := PreparedOne(rec, ranges, r, cursor, cursorUtf8).value;
            p.start == r.start && p.end == r.end && p.text == r.text &&
            cursor <= p.start <= p.end <= |rec.text| && cursorUtf8 <= p.startUtf8 <= p.endUtf8 <= |rec.bytes|
  {
    hide Encoded, WellFormed;
  }

  lemma CutsLast(text: JsString, rs: seq<Replacement>)
    requires rs != [] && InOrder(text, rs[..|rs| - 1])
    requires var n := |rs| - 1; 0 <= EndBefore(rs, n) <= rs[n].start <= rs[n].end <= |text|
    ensures var n := |rs| - 1;
            InOrder(text, rs) &&
            Cuts(text, rs) == Cuts(text, rs[..n]) + [text[EndBefore(rs, n)..rs[n].start], rs[n].text]
  {
    hide Cuts;
    InOrderLast(text, rs);
    CutsUnfold(text, rs);
  }

  lemma InOrderLast(text: JsString, rs: seq<Replacement>)
    requires rs != [] && InOrder(text, rs[..|rs| - 1])
    requires var n := |rs| - 1; 0 <= EndBefore(rs, n) <= rs[n].start <= rs[n].end <= |text|
    ensures InOrder(text, rs)
  {
    var n := |rs| - 1;
    forall i | 0 <= i < n ensures 0 <= EndBefore(rs, i) <= rs[i].start <= rs[i].end <= |text| {
      assert rs[..n][i] == rs[i] && EndBefore(rs[..n], i) == EndBefore(rs, i);
    }
  }

  lemma CutsUnfold(text: JsString, rs: seq<Replacement>)
    requires rs != [] && InOrder(text, rs) && InOrder(text, rs[..|rs| - 1])
    ensures var n := |rs| - 1; Cuts(text, rs) == Cuts(text, rs[..n]) + [text[EndBefore(rs, n)..rs[n].start], rs[n].text]
  {
  }

  lemma NoCuts(text: JsString)
    ensures InOrder(text, []) && Cuts(text, []) == []
  {
  }

  lemma PreparedAllCuts(rec: Record, ranges: set<Range>, rs: seq<Replacement>)
    requires PreparedAll(rec, ranges, rs).Some?
    ensures var ps := PreparedAll(rec, ranges, rs).value;
            Fits(rec, ps) && InOrder(rec.text, rs) && AllPieces(rec, ps) == AllCuts(rec.text, rs) &&
            PatchedText(rec, ps) == Joined(AllCuts(rec.text, rs))
  {
    PreparedCuts(rec, ranges, rs);
  }

  /** What a range certifies about a text. */
  ghost predicate Certified(text: JsString, g: Range)
  {
    0 <= g.startUtf16 <= g.endUtf16 <= |text| &&
    g.startUtf8 == Utf8Offset(text, g.startUtf16) && g.endUtf8 == Utf8Offset(text, g.endUtf16)
  }

  ghost predicate AllCertified(text: JsString, ranges: set<Range>) { forall g :: g in ranges ==> Certified(text, g) }

  // ---------------------------------------------------------------- accepted replacements are sound

  ghost predicate SoundOne(rec: Record, cursor: nat, p: Prepared)
  {
    cursor <= p.start <= p.end <= |rec.text| && ScalarBoundary(rec.text, p.start) && ScalarBoundary(rec.text, p.end) &&
    p.startUtf8 == Utf8Offset(rec.text, p.start) && p.endUtf8 == Utf8Offset(rec.text, p.end) &&
    WellFormed(p.text) && p.utf8 == Encoded(p.text)
  }

  ghost predicate Sound(rec: Record, ps: seq<Prepared>)
  {
    ps == [] || (Sound(rec, ps[..|ps| - 1]) && SoundOne(rec, EndOf(ps[..|ps| - 1]), ps[|ps| - 1]))
  }

  lemma SoundEnd(rec: Record, ps: seq<Prepared>)
    requires Sound(rec, ps)
    ensures EndOf(ps) <= |rec.text| && ScalarBoundary(rec.text, EndOf(ps)) &&
            EndUtf8Of(ps) == Utf8Offset(rec.text, EndOf(ps))
  {
  }

  lemma SoundResolved(rec: Record, ranges: set<Range>, r: Replacement, cursor: nat)
    requires rec.bytes == Encoded(rec.text) && AllCertified(rec.text, ranges)
    requires cursor <= |rec.text| && ScalarBoundary(rec.text, cursor) && ValidReplacement(r, cursor, rec.text)
    ensures var start := Resolved(rec, ranges, r, cursor, Utf8Offset(rec.text, cursor));
            (start.Some? ==> start.value == Utf8Offset(rec.text, r.start)) &&
            (ReadSupplied(r) == NotSupplied ==> start.Some?)
  {
    hide Encoded;
    var text := rec.text;
    SliceEncoded(text, cursor, r.start);
    SliceEncoded(text, r.start, r.end);
    SliceEncoded(text, r.end, |text|);
    assert text[..|text|] == text;
    var supplied := ReadSupplied(r);
    if supplied.At? && Range(r.start, r.end, supplied.start, supplied.end) in ranges {
      assert Certified(text, Range(r.start, r.end, supplied.start, supplied.end));
    }
  }

  lemma {:induction false} PreparedIsSound(rec: Record, ranges: set<Range>, rs: seq<Replacement>)
    requires rec.bytes == Encoded(rec.text) && AllCertified(rec.text, ranges)
    ensures var ps := PreparedAll(rec, ranges, rs); ps.Some? ==> Sound(rec, ps.value)
  {
    if rs != [] {
      var n := |rs| - 1;
      PreparedIsSound(rec, ranges, rs[..n]);
      var front := PreparedAll(rec, ranges, rs[..n]);
      if front.Some? {
        SoundEnd(rec, front.value);
        SoundPrepared(rec, ranges, rs[n], EndOf(front.value), front.value);
      }
    }
  }

  lemma SoundPrepared(rec: Record, ranges: set<Range>, r: Replacement, cursor: nat, front: seq<Prepared>)
    requires rec.bytes == Encoded(rec.text) && AllCertified(rec.text, ranges)
    requires Sound(rec, front) && cursor == EndOf(front)
    ensures var p := PreparedOne(rec, ranges, r, cursor, EndUtf8Of(front));
            p.Some? ==> SoundOne(rec, cursor, p.value) && Sound(rec, front + [p.value])
  {
    hide Encoded;
    SoundEnd(rec, front);
    var p := PreparedOne(rec, ranges, r, cursor, EndUtf8Of(front));
    if p.Some? {
      SoundResolved(rec, ranges, r, cursor);
      SliceEncoded(rec.text, r.start, r.end);
      assert (front + [p.value])[..|front|] == front;
    }
  }

  lemma {:induction false} SoundFits(rec: Record, ps: seq<Prepared>)
    requires rec.bytes == Encoded(rec.text) && Sound(rec, ps)
    ensures Fits(rec, ps)
  {
    hide Encoded;
    if ps != [] {
      var front, last := ps[..|ps| - 1], ps[|ps| - 1];
      SoundFits(rec, front);
      SoundEnd(rec, front);
      SliceEncoded(rec.text, EndOf(front), last.start);
      SliceEncoded(rec.text, last.start, last.end);
    }
  }

  lemma {:induction false} BytesAreEncodedPieces(rec: Record, ps: seq<Prepared>)
    requires rec.bytes == Encoded(rec.text) && Sound(rec, ps) && Fits(rec, ps)
    ensures BytesBefore(rec, ps) == JoinedBytes(Pieces(rec, ps))
  {
    hide Encoded;
    if ps != [] {
      var front, last := ps[..|ps| - 1], ps[|ps| - 1];
      BytesAreEncodedPieces(rec, front);
      SoundEnd(rec, front);
      SliceEncoded(rec.text, EndOf(front), last.start);
      TwoMore(Pieces(rec, front), rec.text[EndOf(front)..last.start], last.text);
    }
  }

  lemma TwoMore(ps: seq<JsString>, a: JsString, b: JsString)
    ensures JoinedBytes(ps + [a, b]) == JoinedBytes(ps) + Encoded(a) + Encoded(b)
    ensures Joined(ps + [a, b]) == Joined(ps) + a + b
  {
    hide Encoded;
    assert (ps + [a, b])[..|ps| + 1] == ps + [a] && (ps + [a])[..|ps|] == ps;
    assert JoinedBytes(ps + [a]) == JoinedBytes(ps) + Encoded(a);
    assert Joined(ps + [a]) == Joined(ps) + a;
  }

  lemma OneMore(ps: seq<JsString>, a: JsString)
    ensures JoinedBytes(ps + [a]) == JoinedBytes(ps) + Encoded(a) && Joined(ps + [a]) == Joined(ps) + a
  {
    hide Encoded;
    assert (ps + [a])[..|ps|] == ps;
  }

  /** The patched bytes are the encodings of the pieces, whatever the source text. */
  lemma PatchedBytesAreJoined(rec: Record, ps: seq<Prepared>)
    requires rec.bytes == Encoded(rec.text) && Sound(rec, ps) && Fits(rec, ps)
    ensures PatchedBytes(rec, ps) == JoinedBytes(AllPieces(rec, ps))
  {
    hide Encoded;
    BytesAreEncodedPieces(rec, ps);
    SoundEnd(rec, ps);
    var n := EndOf(ps);
    SliceEncoded(rec.text, n, |rec.text|);
    assert rec.text[n..|rec.text|] == rec.text[n..] && rec.text[..|rec.text|] == rec.text;
    OneMore(Pieces(rec, ps), rec.text[n..]);
  }

  // ---------------------------------------------------------------- exactness

  lemma {:induction false} WellFormedPiecesOf(rec: Record, ps: seq<Prepared>)
    requires WellFormed(rec.text) && Sound(rec, ps) && Fits(rec, ps)
    ensures forall i :: 0 <= i < |Pieces(rec, ps)| ==> WellFormed(Pieces(rec, ps)[i])
  {
    hide WellFormed, Encoded;
    if ps != [] {
      var front, last := ps[..|ps| - 1], ps[|ps| - 1];
      WellFormedPiecesOf(rec, front);
      SoundEnd(rec, front);
      WellFormedSlice(rec.text, EndOf(front), last.start);
    }
  }

  lemma WellFormedAllPieces(rec: Record, ps: seq<Prepared>)
    requires WellFormed(rec.text) && Sound(rec, ps) && Fits(rec, ps)
    ensures forall i :: 0 <= i < |AllPieces(rec, ps)| ==> WellFormed(AllPieces(rec, ps)[i])
  {
    hide WellFormed, Encoded;
    WellFormedPiecesOf(rec, ps);
    SoundEnd(rec, ps);
    WellFormedSlice(rec.text, EndOf(ps), |rec.text|);
    assert rec.text[EndOf(ps)..|rec.text|] == rec.text[EndOf(ps)..];
  }

  /** On any source text, the patched bytes are the encoding of the patched text if and only if no
      cut of the patch joins a high surrogate to a low one. */
  lemma PatchExactIff(rec: Record, ranges: set<Range>, rs: seq<Replacement>)
    requires rec.bytes == Encoded(rec.text) && AllCertified(rec.text, ranges) && PreparedAll(rec, ranges, rs).Some?
    ensures var ps := PreparedAll(rec, ranges, rs).value;
            Fits(rec, ps) && InOrder(rec.text, rs) && PatchedText(rec, ps) == Joined(AllCuts(rec.text, rs)) &&
            (PatchedBytes(rec, ps) == Encoded(PatchedText(rec, ps)) <==> JoinsCleanly(rec.text, rs))
  {
    hide Encoded;
    PreparedIsSound(rec, ranges, rs);
    var ps := PreparedAll(rec, ranges, rs).value;
    SoundFits(rec, ps);
    PatchedBytesAreJoined(rec, ps);
    PiecewiseExactIff(AllPieces(rec, ps));
    PreparedAllCuts(rec, ranges, rs);
  }

  /** On a well-formed source text every accepted patch is exact, and well-formed again. */
  lemma PatchExact(rec: Record, ranges: set<Range>, rs: seq<Replacement>)
    requires WellFormed(rec.text) && rec.bytes == Encoded(rec.text) && AllCertified(rec.text, ranges)
    requires PreparedAll(rec, ranges, rs).Some?
    ensures var ps := PreparedAll(rec, ranges, rs).value;
            Fits(rec, ps) && WellFormed(PatchedText(rec, ps)) && PatchedBytes(rec, ps) == Encoding(PatchedText(rec, ps))
    ensures InOrder(rec.text, rs) && JoinsCleanly(rec.text, rs)
  {
    hide Encoded, Encoding, WellFormed;
    PatchExactIff(rec, ranges, rs);
    PreparedAllCuts(rec, ranges, rs);
    var ps := PreparedAll(rec, ranges, rs).value;
    PreparedIsSound(rec, ranges, rs);
    WellFormedAllPieces(rec, ps);
    WellFormedPieces(AllPieces(rec, ps));
    EncodedWellFormed(PatchedText(rec, ps));
  }
}
