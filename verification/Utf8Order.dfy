/**
 The order that `compareUnicodeCodePoints` of `src/base/serialization/canonical-json.ts` sorts keys by: the
 lexicographic order of the code points, which is also that of the UTF-8 bytes.
 */
module Utf8Order {
  import opened Utf8
  import opened CodePointOrder

  /** At the first place where they differ the left one has ended or is smaller. */
  ghost predicate LessAt(a: seq<int>, b: seq<int>, i: nat)
  {
    i <= |a| && i < |b| && a[..i] == b[..i] && (i < |a| ==> a[i] < b[i])
  }

  ghost predicate Lexicographic(a: seq<int>, b: seq<int>) { exists i: nat :: LessAt(a, b, i) }

  lemma LessAtFront(x: int, a: seq<int>, b: seq<int>, i: nat)
    ensures LessAt([x] + a, [x] + b, i + 1) <==> LessAt(a, b, i)
    ensures !LessAt([x] + a, [x] + b, 0)
  {
    var c, d := [x] + a, [x] + b;
    if i <= |a| && i < |b| {
      assert c[..i + 1] == [x] + a[..i] && d[..i + 1] == [x] + b[..i];
      if c[..i + 1] == d[..i + 1] { assert a[..i] == c[..i + 1][1..] && b[..i] == d[..i + 1][1..]; }
    }
  }

  lemma LexicographicFront(x: int, a: seq<int>, b: seq<int>)
    ensures Lexicographic([x] + a, [x] + b) <==> Lexicographic(a, b)
  {
    forall i: nat | LessAt([x] + a, [x] + b, i) ensures Lexicographic(a, b) {
      LessAtFront(x, a, b, 0);
      LessAtFront(x, a, b, i - 1);
    }
    forall i: nat | LessAt(a, b, i) ensures Lexicographic([x] + a, [x] + b) {
      LessAtFront(x, a, b, i);
    }
  }

  lemma {:induction false} DifferenceIff(a: seq<CodePoint>, b: seq<CodePoint>)
    ensures Difference(a, b) < 0 <==> Lexicographic(a, b)
  {
    if a == [] || b == [] || a[0] != b[0] {
      FirstDecides(a, b);
    } else {
      DifferenceIff(a[1..], b[1..]);
      LexicographicFront(a[0], a[1..], b[1..]);
      assert a == [a[0]] + a[1..] && b == [a[0]] + b[1..];
    }
  }

  lemma FirstDecides(a: seq<int>, b: seq<int>)
    requires a == [] || b == [] || a[0] != b[0]
    ensures Lexicographic(a, b) <==> b != [] && (a == [] || a[0] < b[0])
  {
    if b != [] && (a == [] || a[0] < b[0]) { assert LessAt(a, b, 0); }
    forall i: nat | LessAt(a, b, i) ensures i == 0 { SameFirst(a, b, i); }
  }

  lemma SameFirst(a: seq<int>, b: seq<int>, i: nat)
    ensures LessAt(a, b, i) && i > 0 ==> a != [] && b != [] && a[0] == b[0]
  {
    if LessAt(a, b, i) && i > 0 { assert a[..i][0] == a[0] && b[..i][0] == b[0]; }
  }

  /** `compareUnicodeCodePoints` is the lexicographic order of the code points. */
  lemma BeforeIff(a: JsString, b: JsString)
    ensures Before(a, b) <==> Lexicographic(CodePoints(a), CodePoints(b))
  {
    DifferenceIff(CodePoints(a), CodePoints(b));
  }

  // ---------------------------------------------------------------- the order of the bytes

  lemma LeadGrows(c: CodePoint, d: CodePoint)
    requires c < d
    ensures EncodeCodePoint(c)[0] <= EncodeCodePoint(d)[0]
    ensures |EncodeCodePoint(c)| != |EncodeCodePoint(d)| ==> EncodeCodePoint(c)[0] < EncodeCodePoint(d)[0]
  {
  }

  /** A larger number has larger high digits, or the same and a larger last one. */
  lemma LastDigitOrder(c: nat, d: nat)
    requires c < d
    ensures c / 0x40 < d / 0x40 || (c / 0x40 == d / 0x40 && c % 0x40 < d % 0x40)
    ensures c / 0x40 / 0x40 == c / 0x1000 && d / 0x40 / 0x40 == d / 0x1000
    ensures c / 0x1000 / 0x40 == c / 0x40000 && d / 0x1000 / 0x40 == d / 0x40000
  {
  }

  lemma TwoOrder(c: CodePoint, d: CodePoint)
    requires c < d && |EncodeCodePoint(c)| == 2 == |EncodeCodePoint(d)|
    ensures var x, y := EncodeCodePoint(c), EncodeCodePoint(d); LessAt(x, y, 0) || LessAt(x, y, 1)
  {
    LastDigitOrder(c, d);
  }

  /** The same leads, and behind them digits of which the first that differ decide. */
  lemma ThreeOrder(c: CodePoint, d: CodePoint)
    requires c < d && |EncodeCodePoint(c)| == 3 == |EncodeCodePoint(d)|
    ensures var x, y := EncodeCodePoint(c), EncodeCodePoint(d); LessAt(x, y, 0) || LessAt(x, y, 1) || LessAt(x, y, 2)
  {
    var x, y := EncodeCodePoint(c), EncodeCodePoint(d);
    LastDigitOrder(c, d);
    if c / 0x40 < d / 0x40 { LastDigitOrder(c / 0x40, d / 0x40); }
    DigitsDecide(x, y, c / 0x1000, c / 0x40 % 0x40, d / 0x1000, d / 0x40 % 0x40);
  }

  lemma DigitsDecide(x: Bytes, y: Bytes, p: nat, q: nat, p': nat, q': nat)
    requires |x| == 3 == |y| && x[0] - p == y[0] - p' && x[1] - q == y[1] - q'
    requires p < p' || (p == p' && (q < q' || (q == q' && x[2] < y[2])))
    ensures LessAt(x, y, 0) || LessAt(x, y, 1) || LessAt(x, y, 2)
  {
    if p < p' {
      assert LessAt(x, y, 0);
    } else if q < q' {
      assert x[..1] == y[..1];
    } else {
      assert x[..2] == y[..2];
    }
  }

  lemma FourOrder(c: CodePoint, d: CodePoint)
    requires c < d && |EncodeCodePoint(c)| == 4 == |EncodeCodePoint(d)|
    ensures var x, y := EncodeCodePoint(c), EncodeCodePoint(d);
            LessAt(x, y, 0) || LessAt(x, y, 1) || LessAt(x, y, 2) || LessAt(x, y, 3)
  {
    hide LessAt;
    var x, y := EncodeCodePoint(c), EncodeCodePoint(d);
    LastDigitOrder(c, d);
    if c / 0x40 < d / 0x40 {
      LastDigitOrder(c / 0x40, d / 0x40);
      if c / 0x1000 < d / 0x1000 { LastDigitOrder(c / 0x1000, d / 0x1000); }
    }
    FourDecide(x, y);
  }

  lemma FourDecide(x: Bytes, y: Bytes)
    requires |x| == 4 == |y|
    requires x[0] < y[0] || (x[0] == y[0] && (x[1] < y[1] ||
             (x[1] == y[1] && (x[2] < y[2] || (x[2] == y[2] && x[3] < y[3])))))
    ensures LessAt(x, y, 0) || LessAt(x, y, 1) || LessAt(x, y, 2) || LessAt(x, y, 3)
  {
    if x[0] == y[0] {
      assert x[..1] == y[..1];
      if x[1] == y[1] {
        assert x[..2] == y[..2];
        if x[2] == y[2] { assert x[..3] == y[..3]; }
      }
    }
  }

  /** The encodings of two code points differ in a place they both have, in the direction of the code points. */
  lemma EncodedLess(c: CodePoint, d: CodePoint) returns (k: nat)
    requires c < d
    ensures k < |EncodeCodePoint(c)| && LessAt(EncodeCodePoint(c), EncodeCodePoint(d), k)
  {
    hide LessAt;
    var x, y := EncodeCodePoint(c), EncodeCodePoint(d);
    LeadGrows(c, d);
    if |x| != |y| || |x| == 1 {
      k := 0;
      LeadDecides(x, y);
    } else if |x| == 2 {
      TwoOrder(c, d);
      k := if LessAt(x, y, 0) then 0 else 1;
    } else if |x| == 3 {
      ThreeOrder(c, d);
      k := if LessAt(x, y, 0) then 0 else if LessAt(x, y, 1) then 1 else 2;
    } else {
      FourOrder(c, d);
      k := if LessAt(x, y, 0) then 0 else if LessAt(x, y, 1) then 1 else if LessAt(x, y, 2) then 2 else 3;
    }
  }

  lemma LeadDecides(x: Bytes, y: Bytes)
    requires x != [] && y != [] && x[0] < y[0]
    ensures LessAt(x, y, 0)
  {
  }

  lemma {:induction false} LessAtBehind(front: seq<int>, a: seq<int>, b: seq<int>)
    ensures Lexicographic(front + a, front + b) <==> Lexicographic(a, b)
  {
    if front == [] {
      assert front + a == a && front + b == b;
    } else {
      assert front + a == [front[0]] + (front[1..] + a) && front + b == [front[0]] + (front[1..] + b);
      LexicographicFront(front[0], front[1..] + a, front[1..] + b);
      LessAtBehind(front[1..], a, b);
    }
  }

  lemma {:induction false} BytesFollow(a: seq<CodePoint>, b: seq<CodePoint>)
    requires Lexicographic(a, b)
    ensures Lexicographic(EncodeCodePoints(a), EncodeCodePoints(b))
  {
    if a == [] || b == [] || a[0] != b[0] {
      FirstDecides(a, b);
      FirstBytesDecide(a, b);
    } else {
      assert a == [a[0]] + a[1..] && b == [a[0]] + b[1..];
      LexicographicFront(a[0], a[1..], b[1..]);
      BytesFollow(a[1..], b[1..]);
      LessAtBehind(EncodeCodePoint(a[0]), EncodeCodePoints(a[1..]), EncodeCodePoints(b[1..]));
    }
  }

  lemma FirstBytesDecide(a: seq<CodePoint>, b: seq<CodePoint>)
    requires b != [] && (a == [] || a[0] < b[0])
    ensures Lexicographic(EncodeCodePoints(a), EncodeCodePoints(b))
  {
    hide EncodeCodePoint, LessAt;
    if a == [] {
      EmptyIsLess(EncodeCodePoints(b));
    } else {
      var k := EncodedLess(a[0], b[0]);
      LessAtInFront(EncodeCodePoint(a[0]), EncodeCodePoints(a[1..]),
                    EncodeCodePoint(b[0]), EncodeCodePoints(b[1..]), k);
    }
  }

  lemma EmptyIsLess(b: seq<int>)
    requires b != []
    ensures Lexicographic([], b)
  {
    assert LessAt([], b, 0);
  }

  lemma LessAtInFront(x: seq<int>, a: seq<int>, y: seq<int>, b: seq<int>, k: nat)
    requires k < |x| && LessAt(x, y, k)
    ensures Lexicographic(x + a, y + b)
  {
    assert (x + a)[..k] == x[..k] && (y + b)[..k] == y[..k];
    assert LessAt(x + a, y + b, k);
  }

  lemma LessIsAsymmetric(a: seq<int>, b: seq<int>)
    ensures !(Lexicographic(a, b) && Lexicographic(b, a)) && !Lexicographic(a, a)
  {
    forall i: nat, j: nat ensures !(LessAt(a, b, i) && LessAt(b, a, j)) {
      NotBoth(a, b, i, j);
      NotBoth(b, a, j, i);
    }
    forall i: nat ensures !LessAt(a, a, i) {}
  }

  lemma NotBoth(a: seq<int>, b: seq<int>, i: nat, j: nat)
    ensures i <= j ==> !(LessAt(a, b, i) && LessAt(b, a, j))
  {
    assert i < j && j <= |a| && j <= |b| ==> a[..j][i] == a[i] && b[..j][i] == b[i];
  }

  /** The key order is the order of the UTF-8 bytes. */
  lemma BeforeIsByteOrder(a: JsString, b: JsString)
    ensures Before(a, b) <==> Lexicographic(Encoding(a), Encoding(b))
  {
    hide Lexicographic, Before;
    BeforeIff(a, b);
    BeforeIff(b, a);
    BeforeIsTotal(a, b);
    LessIsAsymmetric(Encoding(a), Encoding(b));
    if Before(a, b) { BytesFollow(CodePoints(a), CodePoints(b)); }
    if Before(b, a) { BytesFollow(CodePoints(b), CodePoints(a)); }
  }
}
