/**
 UTF-16 strings and the strict UTF-8 coding of `src/storage/wal-record-codec.ts`.

 A JavaScript string is a sequence of 16-bit code units.  Code units, code points and
 bytes are integers in their ranges; the bit operations of the source are written as the
 division and remainder they amount to on disjoint bit fields.
 */
module Utf8 {
  import opened Wrappers

  type Unit = x: int | 0 <= x < 0x10000
  type CodePoint = x: int | 0 <= x < 0x110000
  type Byte = x: int | 0 <= x < 0x100

  type JsString = seq<Unit>
  type Bytes = seq<Byte>

  predicate IsHigh(u: int) { 0xD800 <= u <= 0xDBFF }

  predicate IsLow(u: int) { 0xDC00 <= u <= 0xDFFF }

  predicate IsScalar(c: CodePoint) { !(0xD800 <= c <= 0xDFFF) }

  predicate AllScalars(cs: seq<CodePoint>) { forall i :: 0 <= i < |cs| ==> IsScalar(cs[i]) }

  predicate StartsWithPair(s: JsString) { |s| >= 2 && IsHigh(s[0]) && IsLow(s[1]) }

  function Combined(high: int, low: int): int { 0x10000 + (high - 0xD800) * 0x400 + (low - 0xDC00) }

  /** The code points a string iterator yields; a lone surrogate is yielded as itself. */
  function CodePoints(s: JsString): (cs: seq<CodePoint>)
  {
    if s == [] then []
    else if StartsWithPair(s) then
      [Combined(s[0], s[1])] + CodePoints(s[2..])
    else [s[0]] + CodePoints(s[1..])
  }

  /** `String.fromCodePoint` */
  function Units(c: CodePoint): (s: JsString)
  {
    if c < 0x10000 then [c]
    else [0xD800 + (c - 0x10000) / 0x400, 0xDC00 + (c - 0x10000) % 0x400]
  }

  function FromCodePoints(cs: seq<CodePoint>): (s: JsString)
  {
    if cs == [] then [] else Units(cs[0]) + FromCodePoints(cs[1..])
  }

  /** A string without lone surrogates. */
  predicate WellFormed(s: JsString) { AllScalars(CodePoints(s)) }

  lemma {:induction false} FromCodePointsInverse(s: JsString)
    ensures FromCodePoints(CodePoints(s)) == s
  {
    if s == [] {
    } else if StartsWithPair(s) {
      FromCodePointsInverse(s[2..]);
      assert CodePoints(s)[1..] == CodePoints(s[2..]);
      assert s == [s[0], s[1]] + s[2..];
    } else {
      FromCodePointsInverse(s[1..]);
      assert CodePoints(s)[1..] == CodePoints(s[1..]);
      assert s == [s[0]] + s[1..];
    }
  }

  lemma {:induction false} CodePointsInverse(cs: seq<CodePoint>)
    requires AllScalars(cs)
    ensures CodePoints(FromCodePoints(cs)) == cs
  {
    if cs != [] {
      CodePointsInverse(cs[1..]);
      var s := FromCodePoints(cs);
      assert s[|Units(cs[0])|..] == FromCodePoints(cs[1..]);
      assert cs == [cs[0]] + cs[1..];
      if cs[0] < 0x10000 {
        assert !StartsWithPair(s);
      } else {
        assert s[0] == Units(cs[0])[0] && s[1] == Units(cs[0])[1];
        assert StartsWithPair(s);
      }
    }
  }

  /** Two texts joined by a separator that the first does not contain can be told apart again. */
  lemma SeparatorIsUnique(a: JsString, x: JsString, b: JsString, y: JsString, c: Unit)
    requires forall i :: 0 <= i < |a| ==> a[i] != c
    requires forall i :: 0 <= i < |b| ==> b[i] != c
    requires a + [c] + x == b + [c] + y
    ensures a == b && x == y
  {
    var joined := a + [c] + x;
    assert joined[|a|] == c && joined[|b|] == c;
    assert forall i :: 0 <= i < |a| ==> joined[i] == a[i];
    assert forall i :: 0 <= i < |b| ==> joined[i] == b[i];
    assert |a| == |b|;
    assert joined[..|a|] == a && (b + [c] + y)[..|b|] == b;
    assert joined[|a| + 1..] == x && (b + [c] + y)[|b| + 1..] == y;
  }

  /** A cut that does not split a surrogate pair. */
  predicate CleanJoin(a: JsString, b: JsString)
  {
    a == [] || b == [] || !(IsHigh(a[|a| - 1]) && IsLow(b[0]))
  }

  lemma {:induction false} CodePointsConcat(a: JsString, b: JsString)
    requires CleanJoin(a, b)
    ensures CodePoints(a + b) == CodePoints(a) + CodePoints(b)
  {
    if a == [] {
      assert a + b == b;
    } else if StartsWithPair(a) {
      assert (a + b)[2..] == a[2..] + b;
      CodePointsConcat(a[2..], b);
    } else {
      assert (a + b)[1..] == a[1..] + b;
      assert !StartsWithPair(a + b);
      CodePointsConcat(a[1..], b);
    }
  }

  lemma {:induction false} WellFormedConcat(a: JsString, b: JsString)
    requires CleanJoin(a, b)
    ensures WellFormed(a + b) <==> WellFormed(a) && WellFormed(b)
  {
    CodePointsConcat(a, b);
    var x, y := CodePoints(a), CodePoints(b);
    assert forall i :: 0 <= i < |x| ==> (x + y)[i] == x[i];
    assert forall i :: 0 <= i < |y| ==> (x + y)[|x| + i] == y[i];
  }

  /** A well-formed string neither ends with a high nor starts with a low surrogate. */
  lemma {:induction false} WellFormedEnds(s: JsString)
    requires WellFormed(s) && s != []
    ensures !IsHigh(s[|s| - 1]) && !IsLow(s[0])
  {
    var c := CodePoints(s);
    assert c[0] == CodePoints(s)[0] && IsScalar(c[0]);
    if StartsWithPair(s) {
      assert c[1..] == CodePoints(s[2..]);
      assert WellFormed(s[2..]) by { assert forall i :: 0 <= i < |c[1..]| ==> c[1..][i] == c[i + 1]; }
      if |s| > 2 { WellFormedEnds(s[2..]); }
    } else {
      assert c[1..] == CodePoints(s[1..]);
      assert WellFormed(s[1..]) by { assert forall i :: 0 <= i < |c[1..]| ==> c[1..][i] == c[i + 1]; }
      if |s| > 1 { WellFormedEnds(s[1..]); }
    }
  }

  // ---------------------------------------------------------------- encoding

  /** `appendCodePointUtf8` */
  function EncodeCodePoint(c: CodePoint): (b: Bytes)
    ensures 1 <= |b| <= 4
  {
    if c <= 0x7F then [c]
    else if c <= 0x7FF then [0xC0 + c / 0x40, 0x80 + c % 0x40]
    else if c <= 0xFFFF then [0xE0 + c / 0x1000, 0x80 + c / 0x40 % 0x40, 0x80 + c % 0x40]
    else [0xF0 + c / 0x40000, 0x80 + c / 0x1000 % 0x40, 0x80 + c / 0x40 % 0x40, 0x80 + c % 0x40]
  }

  function EncodeCodePoints(cs: seq<CodePoint>): (b: Bytes)
  {
    if cs == [] then [] else EncodeCodePoint(cs[0]) + EncodeCodePoints(cs[1..])
  }

  function Encoding(s: JsString): (b: Bytes) { EncodeCodePoints(CodePoints(s)) }

  lemma {:induction false} EncodeCodePointsConcat(a: seq<CodePoint>, b: seq<CodePoint>)
    ensures EncodeCodePoints(a + b) == EncodeCodePoints(a) + EncodeCodePoints(b)
  {
    if a == [] {
      assert a + b == b;
    } else {
      assert (a + b)[1..] == a[1..] + b;
      EncodeCodePointsConcat(a[1..], b);
    }
  }

  /** One step of a string iterator. */
  method FirstCodePoint(s: JsString) returns (c: CodePoint, width: nat)
    requires s != []
    ensures 1 <= width <= |s|
    ensures CodePoints(s) == [c] + CodePoints(s[width..])
    ensures Encoding(s) == EncodeCodePoint(c) + Encoding(s[width..])
  {
    if StartsWithPair(s) {
      c, width := Combined(s[0], s[1]), 2;
    } else {
      c, width := s[0], 1;
    }
    assert CodePoints(s)[1..] == CodePoints(s[width..]);
  }

  /** `encodeUtf8` */
  method EncodeUtf8(value: JsString) returns (output: Bytes)
    ensures output == Encoding(value)
  {
    output := [];
    var rest := value;
    while rest != []
      invariant Encoding(value) == output + Encoding(rest)
      decreases |rest|
    {
      var codePoint, width := FirstCodePoint(rest);
      output := output + EncodeCodePoint(codePoint);
      rest := rest[width..];
    }
  }

  // ---------------------------------------------------------------- decoding

  datatype Decoded = Decoded(codePoint: CodePoint, byteLength: nat)

  /** `continuationByte`: the low six bits of a byte of the form 10xxxxxx. */
  function Continuation(b: Bytes, i: nat): (r: Option<int>)
    ensures r.Some? ==> i < |b| && b[i] == 0x80 + r.value && 0 <= r.value < 0x40
  {
    if i < |b| && 0x80 <= b[i] < 0xC0 then Some(b[i] - 0x80) else None
  }

  function DecodeTwo(b: Bytes, first: Byte): Option<Decoded>
    requires 0xC2 <= first <= 0xDF
  {
    match Continuation(b, 1)
    case None => None
    case Some(x) => Some(Decoded(first % 0x20 * 0x40 + x, 2))
  }

  function DecodeThree(b: Bytes, first: Byte): Option<Decoded>
    requires 0xE0 <= first <= 0xEF
  {
    match (Continuation(b, 1), Continuation(b, 2))
    case (Some(x), Some(y)) =>
      if (first == 0xE0 && b[1] < 0xA0) || (first == 0xED && b[1] >= 0xA0) then None
      else Some(Decoded(first % 0x10 * 0x1000 + x * 0x40 + y, 3))
    case _ => None
  }

  function DecodeFour(b: Bytes, first: Byte): Option<Decoded>
    requires 0xF0 <= first <= 0xF4
  {
    match (Continuation(b, 1), Continuation(b, 2), Continuation(b, 3))
    case (Some(x), Some(y), Some(z)) =>
      if (first == 0xF0 && b[1] < 0x90) || (first == 0xF4 && b[1] >= 0x90) then None
      else Some(Decoded(first % 8 * 0x40000 + x * 0x1000 + y * 0x40 + z, 4))
    case _ => None
  }

  /** `decodeUtf8CodePoint` on the bytes from the current offset. */
  function DecodeCodePoint(b: Bytes): Option<Decoded>
  {
    if b == [] then None
    else if b[0] <= 0x7F then Some(Decoded(b[0], 1))
    else if 0xC2 <= b[0] <= 0xDF then DecodeTwo(b, b[0])
    else if 0xE0 <= b[0] <= 0xEF then DecodeThree(b, b[0])
    else if 0xF0 <= b[0] <= 0xF4 then DecodeFour(b, b[0])
    else None
  }

  lemma Split2(x: int, y: int)
    requires 0 <= y < 0x40
    ensures (x * 0x40 + y) / 0x40 == x && (x * 0x40 + y) % 0x40 == y
  {
  }

  lemma Split3(x: int, y: int, z: int)
    requires 0 <= y < 0x40 && 0 <= z < 0x40
    ensures var c := x * 0x1000 + y * 0x40 + z; c / 0x1000 == x && c / 0x40 % 0x40 == y && c % 0x40 == z
  {
    Split2(x * 0x40 + y, z);
    Split2(x, y);
  }

  lemma Split4(w: int, x: int, y: int, z: int)
    requires 0 <= x < 0x40 && 0 <= y < 0x40 && 0 <= z < 0x40
    ensures var c := w * 0x40000 + x * 0x1000 + y * 0x40 + z;
            c / 0x40000 == w && c / 0x1000 % 0x40 == x && c / 0x40 % 0x40 == y && c % 0x40 == z
  {
    Split3(w * 0x40 + x, y, z);
    Split2(w, x);
  }

  predicate Exact(b: Bytes, d: Decoded)
  {
    IsScalar(d.codePoint) && 1 <= d.byteLength <= |b| && EncodeCodePoint(d.codePoint) == b[..d.byteLength]
  }

  lemma DecodeTwoExact(b: Bytes)
    requires b != [] && 0xC2 <= b[0] <= 0xDF && DecodeTwo(b, b[0]).Some?
    ensures Exact(b, DecodeTwo(b, b[0]).value)
  {
    Split2(b[0] - 0xC0, b[1] - 0x80);
  }

  lemma DecodeThreeExact(b: Bytes)
    requires b != [] && 0xE0 <= b[0] <= 0xEF && DecodeThree(b, b[0]).Some?
    ensures Exact(b, DecodeThree(b, b[0]).value)
  {
    Split3(b[0] - 0xE0, b[1] - 0x80, b[2] - 0x80);
  }

  lemma DecodeFourExact(b: Bytes)
    requires b != [] && 0xF0 <= b[0] <= 0xF4 && DecodeFour(b, b[0]).Some?
    ensures Exact(b, DecodeFour(b, b[0]).value)
  {
    Split4(b[0] - 0xF0, b[1] - 0x80, b[2] - 0x80, b[3] - 0x80);
    var d := DecodeFour(b, b[0]).value;
    assert d.codePoint > 0xFFFF;
    assert EncodeCodePoint(d.codePoint) == [b[0], b[1], b[2], b[3]];
  }

  /** Only the shortest encoding of a scalar value is accepted (section 3 of RFC 3629). */
  lemma DecodeCodePointExact(b: Bytes)
    requires DecodeCodePoint(b).Some?
    ensures Exact(b, DecodeCodePoint(b).value)
  {
    if 0xC2 <= b[0] <= 0xDF { DecodeTwoExact(b); }
    else if 0xE0 <= b[0] <= 0xEF { DecodeThreeExact(b); }
    else if 0xF0 <= b[0] <= 0xF4 { DecodeFourExact(b); }
  }

  lemma DecodeEncodedCodePoint(c: CodePoint, rest: Bytes)
    requires IsScalar(c)
    ensures DecodeCodePoint(EncodeCodePoint(c) + rest) == Some(Decoded(c, |EncodeCodePoint(c)|))
  {
    if c > 0xFFFF {
      DecodeEncodedFour(c, rest);
    } else if c > 0x7FF {
      DecodeEncodedThree(c, rest);
    } else if c > 0x7F {
      assert DecodeTwo(EncodeCodePoint(c) + rest, 0xC0 + c / 0x40) == Some(Decoded(c, 2));
    }
  }

  lemma DecodeEncodedThree(c: CodePoint, rest: Bytes)
    requires IsScalar(c) && 0x7FF < c <= 0xFFFF
    ensures DecodeCodePoint(EncodeCodePoint(c) + rest) == Some(Decoded(c, 3))
  {
    var x, y, z := c / 0x1000, c / 0x40 % 0x40, c % 0x40;
    var b := EncodeCodePoint(c) + rest;
    assert b[0] == 0xE0 + x && b[1] == 0x80 + y && b[2] == 0x80 + z;
    assert c == x * 0x1000 + y * 0x40 + z;
    assert DecodeThree(b, b[0]) == Some(Decoded(c, 3));
  }

  lemma DecodeEncodedFour(c: CodePoint, rest: Bytes)
    requires 0xFFFF < c
    ensures DecodeCodePoint(EncodeCodePoint(c) + rest) == Some(Decoded(c, 4))
  {
    var w, x, y, z := c / 0x40000, c / 0x1000 % 0x40, c / 0x40 % 0x40, c % 0x40;
    var b := EncodeCodePoint(c) + rest;
    assert b[0] == 0xF0 + w && b[1] == 0x80 + x && b[2] == 0x80 + y && b[3] == 0x80 + z;
    LeadAndSecond(c, w, x, y, z);
    DecodeFourBytes(b, w, x, y, z);
  }

  /** The shortest four-byte forms have these lead and second bytes. */
  lemma LeadAndSecond(c: CodePoint, w: int, x: int, y: int, z: int)
    requires 0xFFFF < c && w == c / 0x40000 && x == c / 0x1000 % 0x40 && y == c / 0x40 % 0x40 && z == c % 0x40
    ensures c == w * 0x40000 + x * 0x1000 + y * 0x40 + z && 0 <= w <= 4
    ensures (w == 0 ==> x >= 0x10) && (w == 4 ==> x < 0x10)
  {
  }

  lemma DecodeFourBytes(b: Bytes, w: int, x: int, y: int, z: int)
    requires |b| >= 4 && 0 <= w <= 4 && 0 <= x < 0x40 && 0 <= y < 0x40 && 0 <= z < 0x40
    requires (w == 0 ==> x >= 0x10) && (w == 4 ==> x < 0x10)
    requires b[0] == 0xF0 + w && b[1] == 0x80 + x && b[2] == 0x80 + y && b[3] == 0x80 + z
    ensures DecodeCodePoint(b) == Some(Decoded(w * 0x40000 + x * 0x1000 + y * 0x40 + z, 4))
  {
  }

  function DecodeCodePoints(b: Bytes): (r: Option<seq<CodePoint>>)
    decreases |b|
  {
    if b == [] then Some([])
    else match DecodeCodePoint(b)
      case None => None
      case Some(d) =>
        DecodeCodePointExact(b);
        match DecodeCodePoints(b[d.byteLength..])
        case None => None
        case Some(cs) => Some([d.codePoint] + cs)
  }

  function Decoding(b: Bytes): (r: Option<JsString>)
  {
    match DecodeCodePoints(b)
    case None => None
    case Some(cs) => Some(FromCodePoints(cs))
  }

  function Prepend(front: seq<CodePoint>, r: Option<seq<CodePoint>>): Option<seq<CodePoint>>
  {
    match r
    case None => None
    case Some(cs) => Some(front + cs)
  }

  lemma PrependTwice(a: seq<CodePoint>, b: seq<CodePoint>, r: Option<seq<CodePoint>>)
    ensures Prepend([], r) == r
    ensures Prepend(a, Prepend(b, r)) == Prepend(a + b, r)
  {
    if r.Some? {
      assert [] + r.value == r.value;
      assert a + (b + r.value) == (a + b) + r.value;
    }
  }

  /** `decodeUtf8` */
  method DecodeUtf8(bytes: Bytes) returns (r: Option<JsString>)
    ensures r == Decoding(bytes)
  {
    var codePoints: seq<CodePoint> := [];
    var offset := 0;
    assert bytes[0..] == bytes;
    PrependTwice([], [], DecodeCodePoints(bytes));
    while offset < |bytes|
      invariant 0 <= offset <= |bytes|
      invariant DecodeCodePoints(bytes) == Prepend(codePoints, DecodeCodePoints(bytes[offset..]))
    {
      ghost var here := bytes[offset..];
      var decoded := DecodeCodePoint(bytes[offset..]);
      if decoded.None? {
        return None;
      }
      DecodeCodePointExact(here);
      var next := offset + decoded.value.byteLength;
      assert here[decoded.value.byteLength..] == bytes[next..];
      assert DecodeCodePoints(here) == Prepend([decoded.value.codePoint], DecodeCodePoints(bytes[next..]));
      PrependTwice(codePoints, [decoded.value.codePoint], DecodeCodePoints(bytes[next..]));
      codePoints := codePoints + [decoded.value.codePoint];
      offset := next;
    }
    assert bytes[offset..] == [] && codePoints + [] == codePoints;
    return Some(FromCodePoints(codePoints));
  }

  lemma {:induction false} DecodeCodePointsExact(b: Bytes)
    requires DecodeCodePoints(b).Some?
    ensures AllScalars(DecodeCodePoints(b).value)
    ensures EncodeCodePoints(DecodeCodePoints(b).value) == b
    decreases |b|
  {
    if b != [] {
      var d := DecodeCodePoint(b).value;
      DecodeCodePointExact(b);
      DecodeCodePointsExact(b[d.byteLength..]);
      var cs := DecodeCodePoints(b).value;
      assert cs[1..] == DecodeCodePoints(b[d.byteLength..]).value;
      assert b == b[..d.byteLength] + b[d.byteLength..];
      forall i | 0 <= i < |cs| ensures IsScalar(cs[i]) {
        if i > 0 { assert cs[i] == cs[1..][i - 1]; }
      }
    }
  }

  lemma {:induction false} DecodeEncodedCodePoints(cs: seq<CodePoint>)
    requires AllScalars(cs)
    ensures DecodeCodePoints(EncodeCodePoints(cs)) == Some(cs)
  {
    if cs != [] {
      var rest := EncodeCodePoints(cs[1..]);
      DecodeEncodedCodePoint(cs[0], rest);
      DecodeEncodedCodePoints(cs[1..]);
      assert (EncodeCodePoint(cs[0]) + rest)[|EncodeCodePoint(cs[0])|..] == rest;
      assert cs == [cs[0]] + cs[1..];
    }
  }

  /** Accepted bytes are exactly the encoding of the decoded, well-formed text. */
  lemma DecodeIsExact(b: Bytes)
    requires Decoding(b).Some?
    ensures WellFormed(Decoding(b).value) && Encoding(Decoding(b).value) == b
  {
    DecodeCodePointsExact(b);
    CodePointsInverse(DecodeCodePoints(b).value);
  }

  /** Every well-formed text survives the round trip. */
  lemma RoundTrip(s: JsString)
    requires WellFormed(s)
    ensures Decoding(Encoding(s)) == Some(s)
  {
    DecodeEncodedCodePoints(CodePoints(s));
    FromCodePointsInverse(s);
  }

  /** Text without control characters has no control bytes. */
  lemma {:induction false} EncodingAtLeast(s: JsString, low: int)
    requires low <= 0x80
    requires forall i :: 0 <= i < |s| ==> s[i] >= low
    ensures forall i :: 0 <= i < |Encoding(s)| ==> Encoding(s)[i] >= low
  {
    if s != [] {
      var n := if StartsWithPair(s) then 2 else 1;
      EncodingAtLeast(s[n..], low);
      var cs := CodePoints(s);
      assert cs[1..] == CodePoints(s[n..]);
      assert Encoding(s) == EncodeCodePoint(cs[0]) + Encoding(s[n..]);
    }
  }
}
