/**
 The UTF-8 encoding of `TextEncoder`, which `src/base/hashing/portable-sha-256.ts` relies on: a lone
 surrogate becomes U+FFFD.  Encoding a text piece by piece gives the encoding of the whole exactly
 when no cut joins a high surrogate to a low one.
 */
module TextEncoder {
  import opened Utf8

  function Replaced(cs: seq<CodePoint>): (rs: seq<CodePoint>)
  {
    if cs == [] then [] else [if IsScalar(cs[0]) then cs[0] else 0xFFFD] + Replaced(cs[1..])
  }

  /** `TextEncoder.prototype.encode` */
  function Encoded(s: JsString): Bytes { EncodeCodePoints(Replaced(CodePoints(s))) }

  lemma {:induction false} ReplacedConcat(a: seq<CodePoint>, b: seq<CodePoint>)
    ensures Replaced(a + b) == Replaced(a) + Replaced(b)
  {
    if a == [] {
      assert a + b == b;
    } else {
      assert (a + b)[1..] == a[1..] + b;
      ReplacedConcat(a[1..], b);
    }
  }

  lemma {:induction false} ReplacedScalars(cs: seq<CodePoint>)
    requires AllScalars(cs)
    ensures Replaced(cs) == cs
  {
    if cs != [] {
      ReplacedScalars(cs[1..]);
    }
  }

  /** On strings without lone surrogates it is the encoding of RFC 3629. */
  lemma EncodedWellFormed(s: JsString)
    requires WellFormed(s)
    ensures Encoded(s) == Encoding(s)
  {
    ReplacedScalars(CodePoints(s));
  }

  lemma EncodedConcat(a: JsString, b: JsString)
    requires CleanJoin(a, b)
    ensures Encoded(a + b) == Encoded(a) + Encoded(b)
  {
    CodePointsConcat(a, b);
    ReplacedConcat(CodePoints(a), CodePoints(b));
    EncodeCodePointsConcat(Replaced(CodePoints(a)), Replaced(CodePoints(b)));
  }

  lemma OneEncoded(c: CodePoint)
    ensures EncodeCodePoints(Replaced([c])) == EncodeCodePoint(if IsScalar(c) then c else 0xFFFD)
  {
    var r := if IsScalar(c) then c else 0xFFFD;
    assert [c][1..] == [] && Replaced([c]) == [r] && [r][1..] == [];
  }

  lemma LoneSurrogate(u: Unit)
    requires IsHigh(u) || IsLow(u)
    ensures Encoded([u]) == [0xEF, 0xBF, 0xBD]
  {
    assert [u][1..] == [];
    assert CodePoints([u]) == [u];
    OneEncoded(u);
  }

  lemma Pair(high: Unit, low: Unit)
    requires IsHigh(high) && IsLow(low)
    ensures |Encoded([high, low])| == 4
  {
    assert [high, low][2..] == [];
    assert CodePoints([high, low]) == [Combined(high, low)];
    OneEncoded(Combined(high, low));
  }

  /** Two lone surrogates take six bytes, the pair they form takes four. */
  lemma UncleanJoin(a: JsString, b: JsString)
    requires !CleanJoin(a, b)
    ensures |Encoded(a + b)| + 2 == |Encoded(a)| + |Encoded(b)|
  {
    var n := |a| - 1;
    var front, high, low, rest := a[..n], [a[n]], [b[0]], b[1..];
    assert a == front + high && b == low + rest && a + b == front + ((high + low) + rest);
    EncodedConcat(front, high);
    EncodedConcat(low, rest);
    assert high + low == [a[n], b[0]];
    EncodedConcat(high + low, rest);
    EncodedConcat(front, (high + low) + rest);
    LoneSurrogate(a[n]);
    LoneSurrogate(b[0]);
    Pair(a[n], b[0]);
  }

  // ---------------------------------------------------------------- pieces

  function Joined(ps: seq<JsString>): JsString
  {
    if ps == [] then [] else Joined(ps[..|ps| - 1]) + ps[|ps| - 1]
  }

  function JoinedBytes(ps: seq<JsString>): Bytes
  {
    if ps == [] then [] else JoinedBytes(ps[..|ps| - 1]) + Encoded(ps[|ps| - 1])
  }

  /** The number of cuts that join a high surrogate to a low one. */
  function UncleanJoins(ps: seq<JsString>): nat
  {
    if ps == [] then 0
    else
      UncleanJoins(ps[..|ps| - 1]) + if CleanJoin(Joined(ps[..|ps| - 1]), ps[|ps| - 1]) then 0 else 1
  }

  lemma {:induction false} JoinedLengths(ps: seq<JsString>)
    ensures |Encoded(Joined(ps))| + 2 * UncleanJoins(ps) == |JoinedBytes(ps)|
    ensures UncleanJoins(ps) == 0 ==> Encoded(Joined(ps)) == JoinedBytes(ps)
  {
    if ps != [] {
      var front, last := ps[..|ps| - 1], ps[|ps| - 1];
      JoinedLengths(front);
      if CleanJoin(Joined(front), last) {
        EncodedConcat(Joined(front), last);
      } else {
        UncleanJoin(Joined(front), last);
      }
    }
  }

  /** Encoding piece by piece is exact if and only if every join is clean. */
  lemma PiecewiseExactIff(ps: seq<JsString>)
    ensures JoinedBytes(ps) == Encoded(Joined(ps)) <==> UncleanJoins(ps) == 0
  {
    JoinedLengths(ps);
  }

  lemma {:induction false} UncleanPrefix(ps: seq<JsString>, k: nat)
    requires k <= |ps|
    ensures UncleanJoins(ps[..k]) <= UncleanJoins(ps)
  {
    if k < |ps| {
      UncleanPrefix(ps[..|ps| - 1], k);
      assert ps[..|ps| - 1][..k] == ps[..k];
    } else {
      assert ps[..k] == ps;
    }
  }

  lemma {:induction false} WellFormedPieces(ps: seq<JsString>)
    requires forall i :: 0 <= i < |ps| ==> WellFormed(ps[i])
    ensures WellFormed(Joined(ps)) && UncleanJoins(ps) == 0
  {
    if ps != [] {
      var front, last := ps[..|ps| - 1], ps[|ps| - 1];
      WellFormedPieces(front);
      WellFormedJoin(Joined(front), last);
    } else {
      assert CodePoints([]) == [];
    }
  }

  lemma WellFormedJoin(a: JsString, b: JsString)
    requires WellFormed(a) && WellFormed(b)
    ensures CleanJoin(a, b) && WellFormed(a + b)
  {
    if a != [] { WellFormedEnds(a); }
    if b != [] { WellFormedEnds(b); }
    WellFormedConcat(a, b);
  }

  // ---------------------------------------------------------------- cuts

  /** `isUtf16ScalarBoundary` */
  predicate ScalarBoundary(s: JsString, offset: nat)
    requires offset <= |s|
  {
    offset == 0 || offset == |s| || !(IsHigh(s[offset - 1]) && IsLow(s[offset]))
  }

  /** The UTF-8 offset of a UTF-16 offset. */
  function Utf8Offset(s: JsString, offset: nat): nat
    requires offset <= |s|
  {
    |Encoded(s[..offset])|
  }

  /** Between two boundaries, the bytes of a text are the encoding of what stands there. */
  lemma SliceEncoded(s: JsString, i: nat, j: nat)
    requires i <= j <= |s| && ScalarBoundary(s, i) && ScalarBoundary(s, j)
    ensures Utf8Offset(s, i) <= Utf8Offset(s, j) <= |Encoded(s)|
    ensures Encoded(s)[Utf8Offset(s, i)..Utf8Offset(s, j)] == Encoded(s[i..j])
    ensures Utf8Offset(s, j) == Utf8Offset(s, i) + |Encoded(s[i..j])|
  {
    hide Encoded;
    var a, b, c := s[..i], s[i..j], s[j..];
    assert s[..j] == a + b && s == s[..j] + c;
    EncodedConcat(a, b);
    EncodedConcat(s[..j], c);
    assert Encoded(s) == Encoded(a) + Encoded(b) + Encoded(c);
  }

  lemma WellFormedSlice(s: JsString, i: nat, j: nat)
    requires WellFormed(s) && i <= j <= |s| && ScalarBoundary(s, i) && ScalarBoundary(s, j)
    ensures WellFormed(s[i..j])
  {
    var a, b, c := s[..i], s[i..j], s[j..];
    assert s[..j] == a + b && s == s[..j] + c;
    WellFormedConcat(s[..j], c);
    WellFormedConcat(a, b);
  }
}
