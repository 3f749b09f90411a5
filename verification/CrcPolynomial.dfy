/**
 What the checksum of `src/storage/wal-record-codec.ts` is: the remainder of a division of polynomials with
 coefficients modulo 2.  A polynomial is the sequence of its coefficients, the highest power first.
 */
module CrcPolynomial {
  import opened Utf8
  import opened Crc32

  type Polynomial = seq<bool>

  // ---------------------------------------------------------------- division by the generator

  function Plus(a: Polynomial, b: Polynomial): (c: Polynomial)
    requires |a| == |b|
    ensures |c| == |a| && forall i :: 0 <= i < |a| ==> c[i] == (a[i] != b[i])
  {
    seq(|a|, i requires 0 <= i < |a| => a[i] != b[i])
  }

  function Constant(n: nat, bit: bool): (p: Polynomial)
    ensures |p| == n && forall i :: 0 <= i < n ==> p[i] == bit
  {
    seq(n, _ => bit)
  }

  /** The powers of the generator below its highest, x^32. */
  const POWERS: set<int> := {26, 23, 22, 16, 12, 11, 10, 8, 7, 5, 4, 2, 1, 0}

  function LowerTerms(): (p: Polynomial)
    ensures |p| == 32
  {
    seq(32, i => 31 - i in POWERS)
  }

  /** The product with the generator. */
  function TimesGenerator(q: Polynomial): (p: Polynomial)
    ensures |p| == |q| + 32
  {
    if q == [] then Constant(32, false)
    else
      var rest := [false] + TimesGenerator(q[1..]);
      if q[0] then Plus([true] + LowerTerms() + Constant(|q| - 1, false), rest) else rest
  }

  /** The dividend is a multiple of the generator plus this remainder, of lower degree than the generator. */
  ghost predicate DividesInto(p: Polynomial, q: Polynomial, r: Polynomial)
  {
    |r| == 32 && |p| == |q| + 32 && p == Plus(TimesGenerator(q), Constant(|q|, false) + r)
  }

  ghost predicate IsRemainder(p: Polynomial, r: Polynomial) { exists q :: DividesInto(p, q, r) }

  /** One step of a long division. */
  function Reduced(p: Polynomial): (r: Polynomial)
    requires |p| > 32
    ensures |r| == |p| - 1
  {
    if p[0] then Plus(p[1..], LowerTerms() + Constant(|p| - 33, false)) else p[1..]
  }

  function Divided(p: Polynomial): (r: Polynomial)
    requires |p| >= 32
    ensures |r| == 32
    decreases |p|
  {
    if |p| == 32 then p else Divided(Reduced(p))
  }

  lemma PlusTwice(a: Polynomial, b: Polynomial, c: Polynomial)
    requires |a| == |b| == |c|
    ensures Plus(a, c) == b <==> a == Plus(b, c)
  {
    forall i | 0 <= i < |a| ensures Plus(a, c)[i] == b[i] <==> a[i] == Plus(b, c)[i] {}
    if Plus(a, c) == b { assert a == Plus(b, c); }
    if a == Plus(b, c) { assert Plus(a, c) == b; }
  }

  lemma PlusFirst(x: bool, a: Polynomial, y: bool, b: Polynomial)
    requires |a| == |b|
    ensures Plus([x] + a, [y] + b) == [x != y] + Plus(a, b)
  {
  }

  lemma PlusRotates(a: Polynomial, b: Polynomial, c: Polynomial)
    requires |a| == |b| == |c|
    ensures Plus(Plus(a, b), c) == Plus(Plus(b, c), a)
  {
  }

  lemma TimesFirst(q: Polynomial)
    requires q != []
    ensures var t, lower := TimesGenerator(q[1..]), LowerTerms() + Constant(|q| - 1, false);
            TimesGenerator(q) == [q[0]] + (if q[0] then Plus(lower, t) else t)
  {
    hide LowerTerms, Plus, Constant;
    var t, lower := TimesGenerator(q[1..]), LowerTerms() + Constant(|q| - 1, false);
    if q[0] {
      assert [true] + LowerTerms() + Constant(|q| - 1, false) == [true] + lower;
      PlusFirst(true, lower, false, t);
    }
  }

  lemma ConstantFirst(n: nat, bit: bool, r: Polynomial)
    requires n > 0
    ensures Constant(n, bit) + r == [bit] + (Constant(n - 1, bit) + r)
  {
  }

  /** What the product of a longer quotient is behind its first coefficient. */
  lemma ProductTail(q: Polynomial, r: Polynomial)
    requires |r| == 32 && q != []
    ensures var smaller := Plus(TimesGenerator(q[1..]), Constant(|q| - 1, false) + r);
            var lower := LowerTerms() + Constant(|q| - 1, false);
            Plus(TimesGenerator(q), Constant(|q|, false) + r)
              == [q[0]] + (if q[0] then Plus(smaller, lower) else smaller)
  {
    hide LowerTerms, Plus, TimesGenerator, Constant;
    var t, lower := TimesGenerator(q[1..]), LowerTerms() + Constant(|q| - 1, false);
    var low := Constant(|q| - 1, false) + r;
    TimesFirst(q);
    ConstantFirst(|q|, false, r);
    PlusFirst(q[0], if q[0] then Plus(lower, t) else t, false, low);
    if q[0] { PlusRotates(lower, t, low); }
  }

  lemma ReducedDivides(p: Polynomial, q: Polynomial, r: Polynomial)
    requires |r| == 32 && |p| == |q| + 32 && q != []
    ensures DividesInto(p, q, r) <==> q[0] == p[0] && DividesInto(Reduced(p), q[1..], r)
  {
    hide LowerTerms, TimesGenerator, Plus;
    var product := Plus(TimesGenerator(q), Constant(|q|, false) + r);
    var smaller := Plus(TimesGenerator(q[1..]), Constant(|q| - 1, false) + r);
    ProductTail(q, r);
    PlusTwice(p[1..], smaller, LowerTerms() + Constant(|q| - 1, false));
    assert p == [p[0]] + p[1..] && product == [product[0]] + product[1..];
  }

  /** Long division finds the remainder, and there is no other. */
  lemma {:induction false} DividedIsRemainder(p: Polynomial, r: Polynomial)
    requires |p| >= 32
    ensures IsRemainder(p, r) <==> r == Divided(p)
    decreases |p|
  {
    hide Reduced, DividesInto;
    if |p| == 32 {
      NoQuotient(p, r);
    } else {
      DividedIsRemainder(Reduced(p), r);
      forall q | DividesInto(p, q, r) ensures IsRemainder(Reduced(p), r) {
        QuotientLength(p, q, r);
        ReducedDivides(p, q, r);
      }
      forall q | DividesInto(Reduced(p), q, r) ensures DividesInto(p, [p[0]] + q, r) {
        QuotientLength(Reduced(p), q, r);
        assert ([p[0]] + q)[1..] == q;
        ReducedDivides(p, [p[0]] + q, r);
      }
    }
  }

  lemma QuotientLength(p: Polynomial, q: Polynomial, r: Polynomial)
    requires DividesInto(p, q, r)
    ensures |r| == 32 && |p| == |q| + 32
  {
  }

  lemma NoQuotient(p: Polynomial, r: Polynomial)
    requires |p| == 32
    ensures IsRemainder(p, r) <==> r == p
  {
    if |r| == 32 {
      assert Plus(TimesGenerator([]), Constant(0, false) + r) == r;
      assert DividesInto(r, [], r);
    }
  }

  // ---------------------------------------------------------------- the message

  /** One more binary digit. */
  function Twice(half: nat, bit: bool): nat { 2 * half + if bit then 1 else 0 }

  /** The bits of a number, low bit first. */
  function LowFirst(x: nat, n: nat): (p: Polynomial)
    ensures |p| == n
  {
    if n == 0 then [] else [x % 2 == 1] + LowFirst(x / 2, n - 1)
  }

  function MessageBits(bytes: Bytes): (p: Polynomial)
    ensures |p| == 8 * |bytes|
  {
    if bytes == [] then [] else LowFirst(bytes[0], 8) + MessageBits(bytes[1..])
  }

  /** The first 32 coefficients changed by those of a register. */
  function Loaded(s: Polynomial, p: Polynomial): (r: Polynomial)
    requires |s| == 32 <= |p|
    ensures |r| == |p|
  {
    Plus(p[..32], s) + p[32..]
  }

  function Complement(p: Polynomial): (r: Polynomial)
    ensures |r| == |p|
  {
    Plus(p, Constant(|p|, true))
  }

  /** The message times x^32, with its first 32 bits complemented. */
  function Dividend(bytes: Bytes): (p: Polynomial)
    ensures |p| == 8 * |bytes| + 32
  {
    var p := MessageBits(bytes) + Constant(32, false);
    Complement(p[..32]) + p[32..]
  }

  // ---------------------------------------------------------------- the register as a polynomial

  predicate LowBit(w: bv32) { w & 1 == 1 }

  function Half(w: bv32): bv32 { w >> 1 }

  function Xor(w: bv32, x: bv32): bv32 { w ^ x }

  /** The low bits of a word, low bit first. */
  function WordBits(w: bv32, n: nat): (p: Polynomial)
    ensures |p| == n
    decreases n
  {
    if n == 0 then [] else [LowBit(w)] + WordBits(Half(w), n - 1)
  }

  /** The register in reflected order. */
  function Reflected(w: bv32): (p: Polynomial)
    ensures |p| == 32
  {
    WordBits(w, 32)
  }

  /** One step of the register, on coefficients. */
  function Shifted(s: Polynomial): (t: Polynomial)
    requires |s| == 32
    ensures |t| == 32
  {
    Plus(s[1..] + [false], if s[0] then LowerTerms() else Constant(32, false))
  }

  lemma XorLowBit(w: bv32, x: bv32)
    ensures LowBit(Xor(w, x)) <==> LowBit(w) != LowBit(x)
    ensures Half(Xor(w, x)) == Xor(Half(w), Half(x))
  {
  }

  lemma {:induction false} XorAdds(w: bv32, x: bv32, n: nat)
    ensures WordBits(Xor(w, x), n) == Plus(WordBits(w, n), WordBits(x, n))
    decreases n
  {
    hide LowBit, Half, Xor;
    if n > 0 {
      XorLowBit(w, x);
      XorAdds(Half(w), Half(x), n - 1);
    }
  }

  lemma {:induction false} ZeroBits(n: nat)
    ensures WordBits(0, n) == Constant(n, false)
  {
    if n > 0 { ZeroBits(n - 1); }
  }

  /** A word of `k` ones. */
  function Ones(k: nat): bv32 { if k == 0 then 0 else (Ones(k - 1) << 1) | 1 }

  predicate Fits(w: bv32, mask: bv32) { w & !mask == 0 }

  lemma FitsShifted(w: bv32, mask: bv32)
    requires Fits(w, (mask << 1) | 1)
    ensures Fits(Half(w), mask)
  {
  }

  /** Above the bits it fits in, a word has zeros. */
  lemma {:induction false} HighBits(w: bv32, k: nat, n: nat)
    requires Fits(w, Ones(k))
    ensures WordBits(w, k + n) == WordBits(w, k) + Constant(n, false)
    decreases k
  {
    hide Fits, Half, LowBit;
    if k == 0 {
      FitsNothing(w);
      ZeroBits(n);
    } else {
      FitsShifted(w, Ones(k - 1));
      HighBits(Half(w), k - 1, n);
      assert WordBits(w, k + n) == [LowBit(w)] + WordBits(Half(w), k - 1 + n);
    }
  }

  lemma FitsNothing(w: bv32)
    requires Fits(w, 0)
    ensures w == 0
  {
  }

  lemma OnesAre()
    ensures Ones(8) == 0xFF && Ones(31) == 0x7FFF_FFFF && Ones(32) == 0xFFFF_FFFF
  {
    assert Ones(4) == 0xF;
    assert Ones(12) == 0xFFF;
    assert Ones(16) == 0xFFFF;
    assert Ones(20) == 0xF_FFFF;
    assert Ones(24) == 0xFF_FFFF;
    assert Ones(28) == 0xFFF_FFFF;
  }

  lemma ShiftFits(w: bv32)
    ensures Fits(Half(w), 0x7FFF_FFFF) && Fits(w, 0xFFFF_FFFF)
  {
  }

  lemma ShiftedBits(w: bv32)
    ensures WordBits(Half(w), 32) == WordBits(w, 32)[1..] + [false]
  {
    hide Fits, Half, LowBit, Ones;
    OnesAre();
    ShiftFits(w);
    HighBits(Half(w), 31, 1);
  }

  function Mask(on: bool): bv32 { if on then POLYNOMIAL else 0 }

  lemma StepIs(w: bv32)
    ensures BitStep(w) == Xor(Half(w), Mask(LowBit(w)))
  {
  }

  lemma StepShifts(w: bv32)
    ensures Reflected(BitStep(w)) == Shifted(Reflected(w))
  {
    hide Half, LowBit, Xor, BitStep, LowerTerms;
    StepIs(w);
    XorAdds(Half(w), Mask(LowBit(w)), 32);
    ShiftedBits(w);
    if LowBit(w) { PolynomialBits(); } else { ZeroBits(32); }
  }

  predicate NibbleIs(w: bv32, rest: bv32, b0: bool, b1: bool, b2: bool, b3: bool)
  {
    (w & 1 == 1) == b0 && (w & 2 == 2) == b1 && (w & 4 == 4) == b2 && (w & 8 == 8) == b3 && w >> 4 == rest
  }

  lemma SecondBit(w: bv32)
    ensures LowBit(Half(w)) <==> w & 2 == 2
  {
  }

  lemma HalfHalf(w: bv32)
    ensures Half(Half(w)) == w >> 2
  {
  }

  lemma ThirdBit(w: bv32)
    ensures LowBit(w >> 2) <==> w & 4 == 4
    ensures (w >> 2) & 2 == 2 <==> w & 8 == 8
    ensures (w >> 2) >> 2 == w >> 4
  {
  }

  lemma HalfNibble(w: bv32, rest: bv32, b0: bool, b1: bool, b2: bool, b3: bool)
    requires NibbleIs(w, rest, b0, b1, b2, b3)
    ensures LowBit(w) == b0 && LowBit(Half(w)) == b1 && LowBit(Half(Half(w))) == b2
    ensures LowBit(Half(Half(Half(w)))) == b3 && Half(Half(Half(Half(w)))) == rest
  {
    hide Half;
    SecondBit(w);
    HalfHalf(w);
    SecondBit(w >> 2);
    HalfHalf(w >> 2);
    ThirdBit(w);
  }

  lemma Nibble(w: bv32, rest: bv32, b0: bool, b1: bool, b2: bool, b3: bool, n: nat)
    requires NibbleIs(w, rest, b0, b1, b2, b3) && n >= 4
    ensures WordBits(w, n) == [b0, b1, b2, b3] + WordBits(rest, n - 4)
  {
    hide Half, LowBit, NibbleIs, WordBits;
    HalfNibble(w, rest, b0, b1, b2, b3);
    FourBits(w, n);
  }

  lemma FourBits(w: bv32, n: nat)
    requires n >= 4
    ensures WordBits(w, n) == [LowBit(w), LowBit(Half(w)), LowBit(Half(Half(w))), LowBit(Half(Half(Half(w))))] +
                              WordBits(Half(Half(Half(Half(w)))), n - 4)
  {
    hide Half, LowBit;
    var x, y, z := Half(w), Half(Half(w)), Half(Half(Half(w)));
    assert WordBits(w, n) == [LowBit(w)] + WordBits(x, n - 1);
    assert WordBits(x, n - 1) == [LowBit(x)] + WordBits(y, n - 2);
    assert WordBits(y, n - 2) == [LowBit(y)] + WordBits(z, n - 3);
    assert WordBits(z, n - 3) == [LowBit(z)] + WordBits(Half(z), n - 4);
  }

  lemma NibblesOfPolynomial()
    ensures NibbleIs(0xEDB8_8320, 0xEDB_8832, false, false, false, false)
    ensures NibbleIs(0xEDB_8832, 0xED_B883, false, true, false, false)
    ensures NibbleIs(0xED_B883, 0xE_DB88, true, true, false, false)
    ensures NibbleIs(0xE_DB88, 0xEDB8, false, false, false, true)
    ensures NibbleIs(0xEDB8, 0xEDB, false, false, false, true)
    ensures NibbleIs(0xEDB, 0xED, true, true, false, true)
    ensures NibbleIs(0xED, 0xE, true, false, true, true)
    ensures NibbleIs(0xE, 0, false, true, true, true)
  {
  }

  /** The constant of the register holds the lower terms of the generator. */
  lemma PolynomialBits()
    ensures Reflected(POLYNOMIAL) == LowerTerms()
  {
    NibblesOfPolynomial();
    hide Half, LowBit, NibbleIs, WordBits;
    Nibble(0xEDB8_8320, 0xEDB_8832, false, false, false, false, 32);
    Nibble(0xEDB_8832, 0xED_B883, false, true, false, false, 28);
    Nibble(0xED_B883, 0xE_DB88, true, true, false, false, 24);
    Nibble(0xE_DB88, 0xEDB8, false, false, false, true, 20);
    Nibble(0xEDB8, 0xEDB, false, false, false, true, 16);
    Nibble(0xEDB, 0xED, true, true, false, true, 12);
    Nibble(0xED, 0xE, true, false, true, true, 8);
    Nibble(0xE, 0, false, true, true, true, 4);
  }

  // ---------------------------------------------------------------- the message in the register

  lemma PackHalves(b7: bool, b6: bool, b5: bool, b4: bool, b3: bool, b2: bool, b1: bool, b0: bool)
    ensures LowBit(Pack(b7, b6, b5, b4, b3, b2, b1, b0)) == b0
    ensures Half(Pack(b7, b6, b5, b4, b3, b2, b1, b0)) == Pack(false, b7, b6, b5, b4, b3, b2, b1)
  {
  }

  lemma PackedBits(b7: bool, b6: bool, b5: bool, b4: bool, b3: bool, b2: bool, b1: bool, b0: bool)
    ensures Reflected(Pack(b7, b6, b5, b4, b3, b2, b1, b0)) == [b0, b1, b2, b3, b4, b5, b6, b7] + Constant(24, false)
  {
    hide Half, LowBit, Pack, WordBits;
    PackHalves(b7, b6, b5, b4, b3, b2, b1, b0);
    PackHalves(false, b7, b6, b5, b4, b3, b2, b1);
    PackHalves(false, false, b7, b6, b5, b4, b3, b2);
    PackHalves(false, false, false, b7, b6, b5, b4, b3);
    PackHalves(false, false, false, false, b7, b6, b5, b4);
    PackHalves(false, false, false, false, false, b7, b6, b5);
    PackHalves(false, false, false, false, false, false, b7, b6);
    PackHalves(false, false, false, false, false, false, false, b7);
    FourBits(Pack(b7, b6, b5, b4, b3, b2, b1, b0), 32);
    FourBits(Pack(false, false, false, false, b7, b6, b5, b4), 28);
    NothingPacked();
    ZeroBits(24);
  }

  lemma NothingPacked()
    ensures Pack(false, false, false, false, false, false, false, false) == 0
  {
  }

  lemma {:induction false} LowFirstIsReversed(x: nat, n: nat)
    ensures forall i :: 0 <= i < n ==> LowFirst(x, n)[i] == Flags(x, n)[n - 1 - i]
  {
    if n > 0 { LowFirstIsReversed(x / 2, n - 1); }
  }

  lemma ByteReflected(b: Byte)
    ensures Reflected(Bits(b)) == LowFirst(b, 8) + Constant(24, false)
  {
    hide Pack, Reflected, Bits, Flags, LowFirst;
    var f := Flags(b, 8);
    BitsIs(b);
    PackedBits(f[0], f[1], f[2], f[3], f[4], f[5], f[6], f[7]);
    ByteList(b);
  }

  lemma ByteList(b: Byte)
    ensures var f := Flags(b, 8); LowFirst(b, 8) == [f[7], f[6], f[5], f[4], f[3], f[2], f[1], f[0]]
  {
    hide Flags, LowFirst;
    LowFirstIsReversed(b, 8);
  }

  lemma BitsIs(b: Byte)
    ensures var f := Flags(b, 8); Bits(b) == Pack(f[0], f[1], f[2], f[3], f[4], f[5], f[6], f[7])
  {
    hide Pack, Flags;
  }

  /** A zero bit in front of what is left is one step of the register. */
  lemma OneStep(s: Polynomial, rest: Polynomial)
    requires |s| == 32 <= |rest|
    ensures Divided(Loaded(s, [false] + rest)) == Divided(Loaded(Shifted(s), rest))
  {
    hide LowerTerms;
    var p, q := Loaded(s, [false] + rest), Loaded(Shifted(s), rest);
    assert p[0] == s[0];
    forall i | 0 <= i < |q| ensures Reduced(p)[i] == q[i] {
      assert p[i + 1] == if i < 31 then rest[i] != s[i + 1] else rest[i];
    }
    assert Reduced(p) == q;
  }

  lemma {:induction false} Steps(w: bv32, n: nat, rest: Polynomial)
    requires |rest| >= 32
    ensures Divided(Loaded(Reflected(w), Constant(n, false) + rest)) == Divided(Loaded(Reflected(BitSteps(w, n)), rest))
    decreases n
  {
    hide Loaded, Divided, Reflected, BitStep, Shifted;
    if n == 0 {
      assert Constant(0, false) + rest == rest;
    } else {
      var more := Constant(n - 1, false) + rest;
      assert Constant(n, false) + rest == [false] + more;
      OneStep(Reflected(w), more);
      StepShifts(w);
      Steps(BitStep(w), n - 1, rest);
    }
  }

  /** Mixing a byte into the register takes it off the front of the message. */
  lemma MixedIn(w: bv32, b: Byte, rest: Polynomial)
    requires |rest| >= 32
    ensures Loaded(Reflected(w), LowFirst(b, 8) + rest) == Loaded(Reflected(Xor(w, Bits(b))), Constant(8, false) + rest)
  {
    hide Xor, Reflected, Bits, LowFirst;
    RegisterAdds(w, Bits(b));
    ByteReflected(b);
  }

  lemma RegisterAdds(w: bv32, x: bv32)
    ensures Reflected(Xor(w, x)) == Plus(Reflected(w), Reflected(x))
  {
    hide Xor, WordBits;
    XorAdds(w, x, 32);
  }

  lemma ByteStepIs(w: bv32, b: Byte)
    ensures ByteStep(w, b) == BitSteps(Xor(w, Bits(b)), 8)
  {
    hide Bits, BitSteps;
  }

  lemma {:induction false} RegisterDivides(w: bv32, bytes: Bytes)
    ensures Divided(Loaded(Reflected(w), MessageBits(bytes) + Constant(32, false))) == Reflected(Register(w, bytes))
    decreases |bytes|
  {
    hide Loaded, Divided, Reflected, Xor, Bits, BitSteps, ByteStep, LowFirst;
    if bytes == [] {
      NothingLeft(Reflected(w));
    } else {
      var rest := MessageBits(bytes[1..]) + Constant(32, false);
      assert MessageBits(bytes) + Constant(32, false) == LowFirst(bytes[0], 8) + rest;
      MixedIn(w, bytes[0], rest);
      Steps(Xor(w, Bits(bytes[0])), 8, rest);
      ByteStepIs(w, bytes[0]);
      RegisterDivides(ByteStep(w, bytes[0]), bytes[1..]);
    }
  }

  lemma NothingLeft(s: Polynomial)
    requires |s| == 32
    ensures Divided(Loaded(s, [] + Constant(32, false))) == s
  {
    assert Loaded(s, [] + Constant(32, false)) == s;
  }

  lemma AllOnesBits()
    ensures Reflected(ALL_ONES) == Constant(32, true)
  {
    NibblesOfOnes();
    hide Half, LowBit, NibbleIs, WordBits;
    Nibble(0xFFFF_FFFF, 0xFFF_FFFF, true, true, true, true, 32);
    Nibble(0xFFF_FFFF, 0xFF_FFFF, true, true, true, true, 28);
    Nibble(0xFF_FFFF, 0xF_FFFF, true, true, true, true, 24);
    Nibble(0xF_FFFF, 0xFFFF, true, true, true, true, 20);
    Nibble(0xFFFF, 0xFFF, true, true, true, true, 16);
    Nibble(0xFFF, 0xFF, true, true, true, true, 12);
    Nibble(0xFF, 0xF, true, true, true, true, 8);
    Nibble(0xF, 0, true, true, true, true, 4);
  }

  lemma NibblesOfOnes()
    ensures NibbleIs(0xFFFF_FFFF, 0xFFF_FFFF, true, true, true, true)
    ensures NibbleIs(0xFFF_FFFF, 0xFF_FFFF, true, true, true, true)
    ensures NibbleIs(0xFF_FFFF, 0xF_FFFF, true, true, true, true)
    ensures NibbleIs(0xF_FFFF, 0xFFFF, true, true, true, true)
    ensures NibbleIs(0xFFFF, 0xFFF, true, true, true, true)
    ensures NibbleIs(0xFFF, 0xFF, true, true, true, true)
    ensures NibbleIs(0xFF, 0xF, true, true, true, true)
    ensures NibbleIs(0xF, 0, true, true, true, true)
  {
  }

  /** The checksum, complemented and in reflected order, is the remainder of the message, with its first 32 bits
      complemented and times x^32, modulo the generator. */
  lemma ChecksumIsRemainder(bytes: Bytes, r: Polynomial)
    ensures IsRemainder(Dividend(bytes), r) <==> r == Complement(Reflected(Checksum(bytes)))
  {
    hide Divided, Reflected, Register, LowFirst, IsRemainder, Xor;
    DividedIsRemainder(Dividend(bytes), r);
    RegisterDivides(ALL_ONES, bytes);
    AllOnesBits();
    assert Dividend(bytes) == Loaded(Constant(32, true), MessageBits(bytes) + Constant(32, false));
    RegisterAdds(Register(ALL_ONES, bytes), ALL_ONES);
    ChecksumIs(bytes);
    assert Complement(Reflected(Checksum(bytes))) == Reflected(Register(ALL_ONES, bytes));
  }

  lemma ChecksumIs(bytes: Bytes)
    ensures Checksum(bytes) == Xor(Register(ALL_ONES, bytes), ALL_ONES)
  {
    hide Register;
  }
}
