/** What the padding of section 5.1.1 of FIPS 180-4 is, read off the padded message. */
module Sha256Padding {
  import opened Utf8
  import opened BigEndianNumbers
  import opened WalFrames
  import WalLayout
  import opened Sha256Standard

  /** The message, the bit 1, zero bits as far as whole blocks need, and the number of bits in the last eight bytes. */
  predicate IsPadding(m: Bytes, p: Bytes)
  {
    |p| % 64 == 0 && |m| + 9 <= |p| < |m| + 9 + 64 &&
    m <= p && p[|m|] == 0x80 && (forall i :: |m| < i < |p| - 8 ==> p[i] == 0) &&
    BigEndian(p[|p| - 8..]) == 8 * |m|
  }

  lemma RemainderDigit(q: nat, x: nat)
    ensures (q * 0x100 + x) % 0x100 == x % 0x100
  {
  }

  lemma RemainderQuotients(q: nat, r: nat)
    ensures (q * 0x1_0000_0000 + r) / 0x100_0000 == q * 0x100 + r / 0x100_0000
    ensures (q * 0x1_0000_0000 + r) / 0x1_0000 == q * 0x100 * 0x100 + r / 0x1_0000
    ensures (q * 0x1_0000_0000 + r) / 0x100 == q * 0x1_0000 * 0x100 + r / 0x100
  {
  }

  lemma WordOfRemainder(n: nat)
    ensures Word(n) == Word(n % 0x1_0000_0000)
  {
    var q, r := n / 0x1_0000_0000, n % 0x1_0000_0000;
    RemainderQuotients(q, r);
    RemainderDigit(q, r / 0x100_0000);
    RemainderDigit(q * 0x100, r / 0x1_0000);
    RemainderDigit(q * 0x1_0000, r / 0x100);
    RemainderDigit(q * 0x100_0000, r);
  }

  lemma BigEndianLast(a: Bytes, b: Bytes, last: Byte)
    ensures BigEndian(a + (b + [last])) == BigEndian(a + b) * 256 + last
    ensures BigEndian(b + [last]) == BigEndian(b) * 256 + last && BigEndian([]) == 0
  {
    assert (a + (b + [last]))[..|a| + |b|] == a + b && (b + [last])[..|b|] == b;
  }

  lemma BigEndianConcat(a: Bytes, b: Bytes)
    requires |b| == 4
    ensures BigEndian(a + b) == BigEndian(a) * 0x1_0000_0000 + BigEndian(b)
  {
    hide BigEndian;
    BigEndianLast(a, b[..3], b[3]);
    BigEndianLast(a, b[..2], b[2]);
    BigEndianLast(a, b[..1], b[1]);
    BigEndianLast(a, [], b[0]);
    assert b[..3] + [b[3]] == b && b[..2] + [b[2]] == b[..3] && b[..1] + [b[1]] == b[..2] && [] + [b[0]] == b[..1];
    assert a + [] == a;
  }

  lemma BitLengthReads(length: nat)
    requires 8 * length < 0x1_0000_0000_0000_0000
    ensures BigEndian(BitLength(length)) == 8 * length
  {
    hide Word, BigEndian;
    var high, low := length * 8 / 0x1_0000_0000, length * 8 % 0x1_0000_0000;
    WordOfRemainder(length * 8);
    WalLayout.WordIsBigEndian(high);
    WalLayout.WordIsBigEndian(low);
    BigEndianConcat(Word(high), Word(low));
  }

  lemma PaddedReads(m: Bytes)
    requires 8 * |m| < 0x1_0000_0000_0000_0000
    ensures IsPadding(m, Padded(m))
  {
    hide BigEndian, Word;
    BitLengthReads(|m|);
    var p := Padded(m);
    assert p[|p| - 8..] == BitLength(|m|);
  }

  lemma SamePadding(m: Bytes, p: Bytes, q: Bytes)
    requires IsPadding(m, p) && IsPadding(m, q)
    ensures p == q
  {
    hide BigEndian;
    assert |p| == |q|;
    SameDigits(p[|p| - 8..], q[|q| - 8..]);
    assert p == p[..|p| - 8] + p[|p| - 8..] && q == q[..|p| - 8] + q[|p| - 8..];
    assert p[..|p| - 8] == q[..|p| - 8];
  }

  /** Every message shorter than 2^64 bits has one padding. */
  lemma PaddedIff(m: Bytes, p: Bytes)
    requires 8 * |m| < 0x1_0000_0000_0000_0000
    ensures IsPadding(m, p) <==> p == Padded(m)
  {
    PaddedReads(m);
    if IsPadding(m, p) {
      SamePadding(m, p, Padded(m));
    }
  }
}
