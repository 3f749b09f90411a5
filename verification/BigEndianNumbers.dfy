/** Bytes as the digits of a number, the most significant first. */
module BigEndianNumbers {
  import opened Utf8

  function BigEndian(b: Bytes): nat
  {
    if b == [] then 0 else BigEndian(b[..|b| - 1]) * 256 + b[|b| - 1]
  }

  lemma {:induction false} FirstDifference(a: Bytes, b: Bytes, i: nat)
    requires |a| == |b| && i < |a| && a[..i] == b[..i] && a[i] > b[i]
    ensures BigEndian(a) > BigEndian(b)
  {
    var n := |a| - 1;
    if i == n {
    } else {
      assert a[..n][..i] == a[..i] && b[..n][..i] == b[..i];
      FirstDifference(a[..n], b[..n], i);
    }
  }

  lemma TimesMonotone(x: int, y: int, m: nat)
    ensures x >= y ==> x * m >= y * m
  {
  }

  lemma LastDigit(x: int, low: nat, y: int, low': nat, base: nat)
    requires low < base && low' < base && x * base + low == y * base + low'
    ensures x == y && low == low'
  {
    TimesMonotone(y, x + 1, base);
    TimesMonotone(x, y + 1, base);
  }

  lemma {:induction false} SameDigits(a: Bytes, b: Bytes)
    requires |a| == |b| && BigEndian(a) == BigEndian(b)
    ensures a == b
  {
    if a != [] {
      var n := |a| - 1;
      LastDigit(BigEndian(a[..n]), a[n], BigEndian(b[..n]), b[n], 256);
      SameDigits(a[..n], b[..n]);
      assert a == a[..n] + [a[n]] && b == b[..n] + [b[n]];
    }
  }
}
