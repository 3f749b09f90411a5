/**
 What `patchTrustedCanonicalUtf8Text` of `src/base/hashing/portable-sha-256.ts` reports and certifies: for each
 replacement where it was in the source and where it is in the patched text, in UTF-16 and in UTF-8.
 */
module PatchReports {
  import opened Utf8
  import opened TextEncoder
  import opened TrustedUtf8
  import opened TrustedUtf8Cache

  /** By how much these replacements change the length of the text. */
  function Growth(rs: seq<Replacement>): int
  {
    if rs == [] then 0
    else
      var last := rs[|rs| - 1];
      Growth(rs[..|rs| - 1]) + |last.text| - (last.end - last.start)
  }

  /** Where the `k`th replacement begins in the patched text. */
  function Landing(rs: seq<Replacement>, k: nat): int
    requires k < |rs|
  {
    rs[k].start + Growth(rs[..k])
  }

  /** The offsets of one replacement in the source and in the patched text. */
  ghost predicate Reports(text: JsString, patched: JsString, r: Replacement, at: int, report: Applied)
  {
    0 <= r.start <= r.end <= |text| && 0 <= at && at + |r.text| <= |patched| &&
    patched[at..at + |r.text|] == r.text &&
    report == Applied(Utf8Offset(text, r.start), Utf8Offset(text, r.end), Utf8Offset(patched, at),
                      Utf8Offset(patched, at + |r.text|))
  }

  function RangeOf(r: Replacement, at: int, report: Applied): Range
  {
    Range(at, at + |r.text|, report.nextStartUtf8, report.nextEndUtf8)
  }

  ghost predicate Prepares(ps: seq<Prepared>, rs: seq<Replacement>)
  {
    |ps| == |rs| &&
    forall i :: 0 <= i < |rs| ==> ps[i].start == rs[i].start && ps[i].end == rs[i].end && ps[i].text == rs[i].text
  }

  lemma {:induction false} PreparedAre(rec: Record, ranges: set<Range>, rs: seq<Replacement>)
    requires PreparedAll(rec, ranges, rs).Some?
    ensures Prepares(PreparedAll(rec, ranges, rs).value, rs)
  {
    hide Encoded, WellFormed;
    if rs != [] {
      var n := |rs| - 1;
      PreparedAre(rec, ranges, rs[..n]);
      var front, ps := PreparedAll(rec, ranges, rs[..n]).value, PreparedAll(rec, ranges, rs).value;
      assert ps[..n] == front;
      forall i | 0 <= i < n ensures ps[i].start == rs[i].start && ps[i].end == rs[i].end && ps[i].text == rs[i].text {
        assert ps[i] == front[i] && rs[..n][i] == rs[i];
      }
    }
  }

  lemma {:induction false} PiecesLength(rec: Record, ps: seq<Prepared>, rs: seq<Replacement>)
    requires Fits(rec, ps) && Prepares(ps, rs)
    ensures |Joined(Pieces(rec, ps))| == EndOf(ps) + Growth(rs)
  {
    hide Encoded, WellFormed;
    if ps != [] {
      var n := |ps| - 1;
      var front, last := ps[..n], ps[n];
      FitsPrefix(rec, ps, n);
      PiecesLength(rec, front, rs[..n]);
      TwoMore(Pieces(rec, front), rec.text[EndOf(front)..last.start], last.text);
    }
  }

  lemma {:induction false} ReportAt(rec: Record, ps: seq<Prepared>, k: nat)
    requires Fits(rec, ps) && k < |ps|
    ensures Fits(rec, ps[..k + 1]) && |AppliedAll(rec, ps)| == |ps|
    ensures var g := NextRange(rec, ps[..k + 1]);
            g in NextRanges(rec, ps) &&
            AppliedAll(rec, ps)[k] == Applied(ps[k].startUtf8, ps[k].endUtf8, g.startUtf8, g.endUtf8)
  {
    hide Joined, Pieces, BytesBefore, Fits;
    var n := |ps| - 1;
    FitsPrefix(rec, ps, k + 1);
    FitsPrefix(rec, ps, n);
    AllReported(rec, ps[..n]);
    if k < n {
      ReportAt(rec, ps[..n], k);
      assert ps[..n][..k + 1] == ps[..k + 1];
    } else {
      assert ps[..k + 1] == ps;
    }
  }

  lemma {:induction false} AllReported(rec: Record, ps: seq<Prepared>)
    requires Fits(rec, ps)
    ensures |AppliedAll(rec, ps)| == |ps|
  {
    hide Joined, Pieces, BytesBefore, Fits;
    if ps != [] {
      FitsPrefix(rec, ps, |ps| - 1);
      AllReported(rec, ps[..|ps| - 1]);
    }
  }

  lemma {:induction false} SoundAt(rec: Record, ps: seq<Prepared>, k: nat)
    requires Sound(rec, ps) && k < |ps|
    ensures ps[k].start <= ps[k].end <= |rec.text|
    ensures ps[k].startUtf8 == Utf8Offset(rec.text, ps[k].start) && ps[k].endUtf8 == Utf8Offset(rec.text, ps[k].end)
  {
    hide Encoded, WellFormed;
    if k < |ps| - 1 { SoundAt(rec, ps[..|ps| - 1], k); }
  }

  /** The text of the `k`th replacement stands where it lands. */
  lemma TextLands(rec: Record, ps: seq<Prepared>, rs: seq<Replacement>, k: nat)
    requires Sound(rec, ps) && Fits(rec, ps) && Prepares(ps, rs) && k < |ps|
    ensures var at := Landing(rs, k);
            0 <= at && at + |rs[k].text| <= |PatchedText(rec, ps)| &&
            PatchedText(rec, ps)[at..at + |rs[k].text|] == rs[k].text
    ensures Fits(rec, ps[..k + 1]) && |Joined(Pieces(rec, ps[..k + 1]))| == Landing(rs, k) + |rs[k].text|
  {
    hide Encoded, WellFormed, Pieces, BytesBefore, Fits, Sound;
    var more := ps[..k + 1];
    FitsPrefix(rec, ps, k + 1);
    SoundPrefix(rec, ps, k + 1);
    PrefixPrepares(ps, rs, k + 1);
    PiecesLength(rec, more, rs[..k + 1]);
    assert rs[..k + 1][..k] == rs[..k];
    var before := BeforeLast(rec, more);
    OneMore(before, rs[k].text);
    PatchedPrefix(rec, ps, k + 1);
    SoundEnd(rec, ps);
    OneMore(Pieces(rec, ps), rec.text[EndOf(ps)..]);
    InFront(Joined(before), rs[k].text, PatchedText(rec, ps));
  }

  lemma PrefixPrepares(ps: seq<Prepared>, rs: seq<Replacement>, k: nat)
    requires Prepares(ps, rs) && k <= |ps|
    ensures Prepares(ps[..k], rs[..k])
  {
  }

  lemma InFront(a: JsString, b: JsString, whole: JsString)
    requires a + b <= whole
    ensures |a| + |b| <= |whole| && whole[|a|..|a| + |b|] == b
  {
    assert whole[..|a| + |b|] == a + b;
    assert whole[|a|..|a| + |b|] == (a + b)[|a|..];
  }

  lemma RangeLands(rec: Record, ps: seq<Prepared>, rs: seq<Replacement>, k: nat)
    requires Sound(rec, ps) && Fits(rec, ps) && Prepares(ps, rs) && k < |ps|
    ensures Fits(rec, ps[..k + 1])
    ensures var g := NextRange(rec, ps[..k + 1]);
            g.startUtf16 == Landing(rs, k) && g.endUtf16 == Landing(rs, k) + |rs[k].text|
  {
    hide Encoded, WellFormed, Pieces, BytesBefore, Fits, Sound, Joined, Landing;
    TextLands(rec, ps, rs, k);
  }

  /** After a patch that joins cleanly every report gives the true offsets, and the ranges certified for the new handle
      are those of the replacements in the patched text. */
  lemma ReportsAreTrue(rec: Record, ranges: set<Range>, rs: seq<Replacement>, k: nat)
    requires rec.bytes == Encoded(rec.text) && AllCertified(rec.text, ranges) && PreparedAll(rec, ranges, rs).Some?
    requires InOrder(rec.text, rs) && JoinsCleanly(rec.text, rs) && k < |rs|
    ensures var ps := PreparedAll(rec, ranges, rs).value;
            Fits(rec, ps) && |AppliedAll(rec, ps)| == |rs| &&
            Reports(rec.text, PatchedText(rec, ps), rs[k], Landing(rs, k), AppliedAll(rec, ps)[k]) &&
            RangeOf(rs[k], Landing(rs, k), AppliedAll(rec, ps)[k]) in NextRanges(rec, ps)
  {
    hide Encoded, WellFormed, PreparedAll, UncleanJoins, Pieces, BytesBefore, Sound, Fits, AppliedAll, NextRanges,
         PatchedText, AllCuts, AllPieces, Landing, NextRange, Joined, InOrder, Utf8Offset, AllCertified;
    var ps := PreparedAll(rec, ranges, rs).value;
    PatchKeepsExact(rec, ranges, rs);
    PreparedIsSound(rec, ranges, rs);
    PreparedAllCuts(rec, ranges, rs);
    PreparedAre(rec, ranges, rs);
    ReportAt(rec, ps, k);
    SoundAt(rec, ps, k);
    TextLands(rec, ps, rs, k);
    RangeLands(rec, ps, rs, k);
    NextRangeCertified(rec, ps, k);
  }
}
