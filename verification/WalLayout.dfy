/**
 The bytes of one frame of the WAL (`src/storage/wal-record-codec.ts`): the length of the payload and its
 CRC-32, both most significant byte first, and the payload in UTF-8.
 */
module WalLayout {
  import opened Utf8
  import opened BigEndianNumbers
  import opened CanonicalJson
  import opened Crc32
  import opened CrcPolynomial
  import opened WalRecord
  import opened WalFrames
  import opened WalCodec

  // ---------------------------------------------------------------- words as numbers

  lemma WordIsBigEndian(n: nat)
    requires n < 0x1_0000_0000
    ensures BigEndian(Word(n)) == n
  {
    var b := Word(n);
    FourDigits(b);
    ReadOfWord(n);
  }

  lemma FourDigits(b: Bytes)
    requires |b| == 4
    ensures BigEndian(b) == ReadWord(b, 0)
  {
    assert b[..3][..2] == b[..2] && b[..2][..1] == b[..1] && b[..1][..0] == [];
    assert BigEndian(b[..1]) == b[0];
    assert BigEndian(b[..2]) == BigEndian(b[..1]) * 256 + b[1];
    assert BigEndian(b[..3]) == BigEndian(b[..2]) * 256 + b[2];
  }

  // ---------------------------------------------------------------- the bits of a checksum

  /** Four bits of a word, low bit first. */
  function LowNibble(w: bv32): (p: Polynomial)
    ensures |p| == 4
  {
    [w & 1 != 0, w & 2 != 0, w & 4 != 0, w & 8 != 0]
  }

  lemma NibbleBits(w: bv32)
    ensures LowBit(w) == (w & 1 != 0) && LowBit(Half(w)) == (w & 2 != 0)
    ensures LowBit(w >> 2) == (w & 4 != 0) && LowBit(Half(w >> 2)) == (w & 8 != 0)
    ensures Half(Half(w)) == w >> 2 && Half(Half(w >> 2)) == w >> 4
  {
  }

  lemma NibbleFirst(w: bv32, n: nat)
    ensures WordBits(w, n + 4) == LowNibble(w) + WordBits(w >> 4, n)
  {
    NibbleBits(w);
    hide Half, LowBit, WordBits;
    FourBits(w, n + 4);
  }

  lemma FourthShift(w: bv32)
    ensures (w >> 4) >> 4 == w >> 8 && (w >> 8) >> 8 == w >> 16 && (w >> 16) >> 8 == w >> 24
  {
  }

  lemma ByteFirst(w: bv32, n: nat)
    ensures WordBits(w, n + 8) == WordBits(w, 8) + WordBits(w >> 8, n)
    ensures WordBits(w, 8) == LowNibble(w) + LowNibble(w >> 4)
  {
    FourthShift(w);
    hide WordBits, LowNibble;
    NibbleFirst(w, n + 4);
    NibbleFirst(w >> 4, n);
    NibbleFirst(w, 4);
    NibbleFirst(w >> 4, 0);
    assert WordBits(w >> 8, 0) == [];
  }

  lemma OneDigit(half: nat, on: bool, n: nat)
    ensures LowFirst(Twice(half, on), n + 1) == [on] + LowFirst(half, n)
  {
  }

  lemma HighNibble(w: bv32)
    ensures (w >> 4) & 1 != 0 <==> w & 0x10 != 0
    ensures (w >> 4) & 2 != 0 <==> w & 0x20 != 0
    ensures (w >> 4) & 4 != 0 <==> w & 0x40 != 0
    ensures (w >> 4) & 8 != 0 <==> w & 0x80 != 0
  {
  }

  function FromNibble(half: nat, f: Polynomial): nat
    requires |f| == 4
  {
    Twice(Twice(Twice(Twice(half, f[3]), f[2]), f[1]), f[0])
  }

  lemma LowByteIs(w: bv32)
    ensures LowByte(w) == FromNibble(FromNibble(0, LowNibble(w >> 4)), LowNibble(w))
  {
    HighNibble(w);
  }

  lemma NibbleDigits(half: nat, f: Polynomial, n: nat)
    requires |f| == 4
    ensures LowFirst(FromNibble(half, f), n + 4) == f + LowFirst(half, n)
  {
    hide LowFirst, Twice;
    var x := Twice(half, f[3]);
    var y := Twice(x, f[2]);
    var z := Twice(y, f[1]);
    OneDigit(half, f[3], n);
    OneDigit(x, f[2], n + 1);
    OneDigit(y, f[1], n + 2);
    OneDigit(z, f[0], n + 3);
  }

  lemma NoDigits()
    ensures LowFirst(0, 0) == []
  {
  }

  lemma ByteDigits(w: bv32)
    ensures LowFirst(LowByte(w), 8) == WordBits(w, 8)
  {
    hide LowByte, LowFirst, WordBits, FromNibble, LowNibble;
    LowByteIs(w);
    NibbleDigits(0, LowNibble(w >> 4), 0);
    NibbleDigits(FromNibble(0, LowNibble(w >> 4)), LowNibble(w), 4);
    NoDigits();
    ByteFirst(w, 0);
  }

  lemma HalfOf(high: nat, power: nat, low: nat)
    ensures (high * (2 * power) + low) / 2 == high * power + low / 2
    ensures (high * (2 * power) + low) % 2 == low % 2
  {
    assert high * (2 * power) + low == 2 * (high * power + low / 2) + low % 2;
  }

  lemma {:induction false} DigitsSplit(low: nat, high: nat, k: nat, n: nat)
    requires low < Power(k)
    ensures LowFirst(high * Power(k) + low, k + n) == LowFirst(low, k) + LowFirst(high, n)
    decreases k
  {
    if k > 0 {
      HalfOf(high, Power(k - 1), low);
      DigitsSplit(low / 2, high, k - 1, n);
      var x := high * Power(k) + low;
      assert LowFirst(x, k + n) == [x % 2 == 1] + LowFirst(x / 2, k - 1 + n);
      assert LowFirst(low, k) == [low % 2 == 1] + LowFirst(low / 2, k - 1);
    }
  }

  lemma DigitsOfByte(low: Byte, high: nat, n: nat)
    ensures LowFirst(high * 256 + low, 8 + n) == LowFirst(low, 8) + LowFirst(high, n)
  {
    assert Power(8) == 256;
    DigitsSplit(low, high, 8, n);
  }

  /** The number of a word has its bits. */
  lemma WordDigits(w: bv32)
    ensures LowFirst(WordValue(w), 32) == Reflected(w)
  {
    FourthShift(w);
    hide LowByte, LowFirst, WordBits;
    var a: nat, b: nat, c: nat := LowByte(w >> 24), LowByte(w >> 16), LowByte(w >> 8);
    ByteDigits(w);
    ByteDigits(w >> 8);
    ByteDigits(w >> 16);
    ByteDigits(w >> 24);
    DigitsOfByte(LowByte(w), (a * 256 + b) * 256 + c, 24);
    DigitsOfByte(LowByte(w >> 8), a * 256 + b, 16);
    DigitsOfByte(LowByte(w >> 16), a, 8);
    ByteFirst(w, 24);
    ByteFirst(w >> 8, 16);
    ByteFirst(w >> 16, 8);
  }

  // ---------------------------------------------------------------- the frame

  /** What a checksum is: the 32 digits of the number, low bit first, are the complement of the remainder. */
  ghost predicate IsChecksum(n: nat, payload: Bytes)
  {
    IsRemainder(Dividend(payload), Complement(LowFirst(n, 32)))
  }

  lemma CrcIsChecksum(payload: Bytes)
    ensures IsChecksum(Crc(payload), payload)
  {
    hide IsRemainder, Dividend, Reflected, LowFirst, WordValue, Checksum;
    WordDigits(Checksum(payload));
    ChecksumIsRemainder(payload, Complement(Reflected(Checksum(payload))));
  }

  /** The bytes of an encoded record. */
  lemma FrameLayout(c: Codec, r: CommitRecord)
    requires c.maxPayload < 0x1_0000_0000 && Encoded(c, r).Ok?
    ensures var frame := Encoded(c, r).value;
            |frame| >= 8 && BigEndian(frame[..4]) == |frame| - 8 && IsChecksum(BigEndian(frame[4..8]), frame[8..]) &&
            Serialize(RecordJson(r), 0).Ok? && frame[8..] == Encoding(Serialize(RecordJson(r), 0).value)
  {
    hide IsChecksum, Crc, Encoding, Serialize, Word, BigEndian, RecordJson;
    EncodedPayload(c, r);
    var payload, frame := Payload(r), Encoded(c, r).value;
    assert frame[..4] == Word(|payload|) && frame[4..8] == Word(Crc(payload)) && frame[8..] == payload;
    WordIsBigEndian(|payload|);
    CrcIsWord(payload);
    WordIsBigEndian(Crc(payload));
    CrcIsChecksum(payload);
  }

  lemma CrcIsWord(payload: Bytes)
    ensures Crc(payload) < 0x1_0000_0000
  {
  }
}
