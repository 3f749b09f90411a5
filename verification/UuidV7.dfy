/**
 The monotonic UUIDv7 allocator of `src/base/ids/uuid-v7-allocator.ts`: version and variant bits as in
 section 5.7 of RFC 9562, and a 74-bit counter when the clock repeats or moves backwards.
 */
module UuidV7 {
  import opened Wrappers
  import opened Utf8
  import opened BigEndianNumbers
  import opened CanonicalJson
  import opened HexText
  import opened PercentEncoding

  datatype Seed = Seed(unixMilliseconds: int, randomBytes: Bytes)

  datatype AllocationError = InvalidTimestamp | InvalidRandomByteCount | SequenceExhausted

  /** Version 7 in the high half of byte 6, variant 10 in the high bits of byte 8. */
  predicate WellLaid(b: Bytes) { |b| == 16 && 0x70 <= b[6] <= 0x7F && 0x80 <= b[8] <= 0xBF }

  // ---------------------------------------------------------------- what is computed

  predicate ValidTime(t: int) { 0 <= t <= 0xFFFF_FFFF_FFFF }

  function Time(b: Bytes): nat
    requires |b| >= 6
  {
    BigEndian(b[..6])
  }

  function TimeBytes(t: nat, n: nat): (b: Bytes)
    ensures |b| == n
  {
    if n == 0 then [] else TimeBytes(t / 256, n - 1) + [t % 256]
  }

  /** `createUuidV7Bytes` after `validateSeed` */
  function Candidate(seed: Seed): (b: Bytes)
    requires ValidTime(seed.unixMilliseconds) && |seed.randomBytes| == 10
    ensures WellLaid(b)
  {
    var r := seed.randomBytes;
    TimeBytes(seed.unixMilliseconds, 6) + [0x70 + r[0] % 0x10, r[1], 0x80 + r[2] % 0x40] + r[3..]
  }

  function SeedError(seed: Seed): Option<AllocationError>
  {
    if !ValidTime(seed.unixMilliseconds) then Some(InvalidTimestamp)
    else if |seed.randomBytes| != 10 then Some(InvalidRandomByteCount)
    else None
  }

  /** The least and greatest value of a counter byte. */
  function Low(k: nat): Byte { if k == 6 then 0x70 else if k == 8 then 0x80 else 0 }

  function High(k: nat): Byte { if k == 6 then 0x7F else if k == 8 then 0xBF else 0xFF }

  datatype Increment = Increment(bytes: Bytes, done: bool)

  /** `incrementRandomField` from byte `k` leftwards. */
  function Incremented(b: Bytes, k: nat): (i: Increment)
    requires |b| == 16 && 6 <= k < 16
    ensures |i.bytes| == 16
    decreases k
  {
    if b[k] < High(k) then Increment(b[k := b[k] + 1], true)
    else if k == 6 then Increment(b[k := Low(k)], false)
    else Incremented(b[k := Low(k)], k - 1)
  }

  /** `ensureMonotonicUuidV7` */
  function Monotonic(candidate: Bytes, previous: Bytes): Result<Bytes, AllocationError>
    requires |candidate| == 16 == |previous|
  {
    if Time(candidate) > Time(previous) then Ok(candidate)
    else
      var next := Incremented(previous, 15);
      if next.done then Ok(next.bytes) else Err(SequenceExhausted)
  }

  /** The bytes `#allocate` stores, or its failure. */
  function Allocated(previous: Option<Bytes>, seed: Seed): Result<Bytes, AllocationError>
    requires previous.Some? ==> |previous.value| == 16
  {
    if SeedError(seed).Some? then Err(SeedError(seed).value)
    else if previous.None? then Ok(Candidate(seed))
    else Monotonic(Candidate(seed), previous.value)
  }

  /** `formatUuid` */
  function Format(b: Bytes): (s: JsString)
    requires |b| == 16
    ensures |s| == 36
  {
    var hex := Hex(b);
    hex[..8] + [0x2D] + hex[8..12] + [0x2D] + hex[12..16] + [0x2D] + hex[16..20] + [0x2D] + hex[20..]
  }

  // ---------------------------------------------------------------- the identifier parser

  predicate IsHyphen(p: nat) { p == 8 || p == 13 || p == 18 || p == 23 }

  /** `CANONICAL_UUID_PATTERN` of `src/base/ids/identifiers.ts`: variant digit 8, 9, a or b. */
  predicate MatchesUuid(s: JsString)
  {
    |s| == 36 && (forall p :: 0 <= p < 36 ==> if IsHyphen(p) then s[p] == 0x2D else IsHexDigit(s[p])) &&
    (0x38 <= s[19] <= 0x39 || 0x61 <= s[19] <= 0x62)
  }

  /** `UUID_V7_PATTERN` */
  predicate MatchesV7(s: JsString) { MatchesUuid(s) && s[14] == 0x37 }

  datatype IdentifierError = Empty | TooLong | NotCanonicalUuid | WrongUuidVersion

  /** `parseAllocatedIdentifier`, which all nine parsers of allocated identifiers are. */
  function ParseAllocated(value: JsString): Result<JsString, IdentifierError>
  {
    if |value| == 0 then Err(Empty)
    else if |value| > 128 then Err(TooLong)
    else if !MatchesUuid(value) then Err(NotCanonicalUuid)
    else if !MatchesV7(value) then Err(WrongUuidVersion)
    else if value[14] != 0x37 then Err(WrongUuidVersion)
    else Ok(value)
  }

  // ---------------------------------------------------------------- the methods

  /** `writeTimestamp` */
  method WriteTimestamp(bytes: array<Byte>, timestamp: nat)
    requires bytes.Length == 16
    modifies bytes
    ensures bytes[..6] == TimeBytes(timestamp, 6) && bytes[6..] == old(bytes[6..])
  {
    var remaining := timestamp;
    for index := 6 downto 0
      invariant TimeBytes(timestamp, 6) == TimeBytes(remaining, index) + bytes[index..6]
      invariant bytes[6..] == old(bytes[6..])
    {
      bytes[index] := remaining % 256;
      remaining := remaining / 256;
    }
  }

  /** `createUuidV7Bytes` */
  method CreateBytes(seed: Seed) returns (r: Result<array<Byte>, AllocationError>)
    ensures r.Err? <==> SeedError(seed).Some?
    ensures r.Err? ==> r.error == SeedError(seed).value
    ensures r.Ok? ==> fresh(r.value) && r.value[..] == Candidate(seed)
    ensures r.Ok? ==>
      Time(r.value[..]) == seed.unixMilliseconds && Field(r.value[..], 15) == RandomBits(seed.randomBytes)
  {
    if !ValidTime(seed.unixMilliseconds) {
      return Err(InvalidTimestamp);
    }
    if |seed.randomBytes| != 10 {
      return Err(InvalidRandomByteCount);
    }
    var bytes := new Byte[16](_ => 0);
    WriteTimestamp(bytes, seed.unixMilliseconds);
    var random := seed.randomBytes;
    bytes[6] := 0x70 + random[0] % 0x10;
    bytes[7] := random[1];
    bytes[8] := 0x80 + random[2] % 0x40;
    for index := 9 to 16
      invariant bytes[..9]
             == TimeBytes(seed.unixMilliseconds, 6) + [0x70 + random[0] % 0x10, random[1], 0x80 + random[2] % 0x40]
      invariant forall k :: 9 <= k < index ==> bytes[k] == random[k - 6]
    {
      bytes[index] := random[index - 6];
    }
    assert bytes[9..] == random[3..];
    assert bytes[..] == bytes[..9] + bytes[9..];
    CandidateTime(seed);
    CandidateField(seed);
    return Ok(bytes);
  }

  /** `compareTimestamp` */
  method CompareTimestamp(left: Bytes, right: Bytes) returns (difference: int)
    requires |left| == 16 == |right|
    ensures difference > 0 <==> Time(left) > Time(right)
  {
    for index := 0 to 6
      invariant left[..index] == right[..index]
    {
      var l: int, r: int := left[index], right[index];
      if l != r {
        assert left[..6][..index] == left[..index] && right[..6][..index] == right[..index];
        if l > r {
          FirstDifference(left[..6], right[..6], index);
        } else {
          FirstDifference(right[..6], left[..6], index);
        }
        return l - r;
      }
    }
    return 0;
  }

  /** `incrementByte` */
  method IncrementByte(bytes: array<Byte>, index: nat, maximum: Byte, reset: Byte) returns (done: bool)
    requires index < bytes.Length
    modifies bytes
    ensures done <==> old(bytes[index]) < maximum
    ensures bytes[..] == old(bytes[..])[index := if done then old(bytes[index]) + 1 else reset]
  {
    if bytes[index] < maximum {
      bytes[index] := bytes[index] + 1;
      return true;
    }
    bytes[index] := reset;
    return false;
  }

  /** `incrementRandomField` */
  method IncrementRandomField(bytes: array<Byte>) returns (done: bool)
    requires bytes.Length == 16
    modifies bytes
    ensures Increment(bytes[..], done) == Incremented(old(bytes[..]), 15)
  {
    for index := 16 downto 9
      invariant index > 0 && Incremented(old(bytes[..]), 15) == Incremented(bytes[..], index - 1)
    {
      done := IncrementByte(bytes, index, 0xFF, 0);
      if done {
        return;
      }
    }
    done := IncrementByte(bytes, 8, 0xBF, 0x80);
    if done {
      return;
    }
    assert Incremented(old(bytes[..]), 15) == Incremented(bytes[..], 7);
    done := IncrementByte(bytes, 7, 0xFF, 0);
    if done {
      return;
    }
    assert Incremented(old(bytes[..]), 15) == Incremented(bytes[..], 6);
    done := IncrementByte(bytes, 6, 0x7F, 0x70);
  }

  class UuidV7IdAllocator {
    var previousBytes: array?<Byte>

    ghost function Previous(): Option<Bytes>
      reads this, previousBytes
    {
      if previousBytes == null then None else Some(previousBytes[..])
    }

    ghost predicate Valid()
      reads this, previousBytes
    {
      Previous().Some? ==> WellLaid(Previous().value)
    }

    constructor ()
      ensures Valid() && Previous() == None
    {
      previousBytes := null;
    }

    /** `#allocate`: a failed seed or an exhausted counter changes nothing; otherwise the identifier
        handed out is the text of the bytes that are kept.  The parser never refuses it. */
    method Allocate(seed: Seed) returns (r: Result<JsString, AllocationError>)
      requires Valid()
      modifies this
      ensures Valid()
      ensures var a := Allocated(old(Previous()), seed);
              if a.Err? then r == Err(a.error) && Previous() == old(Previous())
              else r == Ok(Format(a.value)) && Previous() == Some(a.value)
    {
      var candidate := CreateBytes(seed);
      if candidate.Err? {
        return Err(candidate.error);
      }
      var bytes := candidate.value;
      if previousBytes != null {
        ghost var previous := previousBytes[..];
        var order := CompareTimestamp(candidate.value[..], previousBytes[..]);
        if order <= 0 {
          var p := previousBytes;
          bytes := new Byte[16](i requires 0 <= i < 16 reads p => p[i]);
          assert bytes[..] == previous;
          var done := IncrementRandomField(bytes);
          IncrementStaysLaid(previous, 15);
          if !done {
            return Err(SequenceExhausted);
          }
        }
      }
      previousBytes := bytes;
      var text := Format(bytes[..]);
      var parsed := ParseAllocated(text);
      FormatParses(bytes[..]);
      return if parsed.Err? then Err(InvalidRandomByteCount) else Ok(parsed.value);
    }
  }

  // ---------------------------------------------------------------- lexicographic order

  /** The order of byte strings of one length. */
  ghost predicate Less(a: seq<int>, b: seq<int>)
  {
    |a| == |b| && exists i :: 0 <= i < |a| && a[..i] == b[..i] && a[i] < b[i]
  }

  lemma LessTransitive(a: seq<int>, b: seq<int>, c: seq<int>)
    requires Less(a, b) && Less(b, c)
    ensures Less(a, c)
  {
    var i :| 0 <= i < |a| && a[..i] == b[..i] && a[i] < b[i];
    var j :| 0 <= j < |b| && b[..j] == c[..j] && b[j] < c[j];
    var k := if i < j then i else j;
    assert a[..k] == a[..i][..k] && b[..k] == b[..i][..k] == b[..j][..k] && c[..k] == c[..j][..k];
    if i < j { assert b[..j][i] == c[..j][i]; }
    if j < i { assert a[..i][j] == b[..i][j]; }
    assert a[..k] == c[..k] && a[k] < c[k];
  }

  /** A later timestamp makes the whole identifier greater. */
  lemma LaterTimeIsGreater(a: Bytes, b: Bytes)
    requires |a| == 16 == |b| && Time(a) > Time(b)
    ensures Less(b, a)
  {
    if a[..6] == b[..6] {
      assert false;
    }
    var i := SomeDifference(a[..6], b[..6]);
    assert a[..i] == a[..6][..i] && b[..i] == b[..6][..i];
    if a[i] < b[i] {
      FirstDifference(b[..6], a[..6], i);
    }
  }

  lemma SomeDifference(a: Bytes, b: Bytes) returns (i: nat)
    requires |a| == |b| && a != b
    ensures i < |a| && a[..i] == b[..i] && a[i] != b[i]
  {
    assert a[..|a|] == a && b[..|b|] == b;
    i := 0;
    while i < |a| && a[i] == b[i]
      invariant i <= |a| && a[..i] == b[..i]
    {
      i := i + 1;
    }
  }

  // ---------------------------------------------------------------- the 74-bit counter

  /** The number of values of a counter byte. */
  function Base(k: nat): nat { High(k) - Low(k) + 1 }

  /** The counter in bytes 6 to `k`. */
  function Field(b: Bytes, k: nat): int
    requires |b| == 16 && 6 <= k < 16
  {
    (if k == 6 then 0 else Field(b, k - 1) * Base(k)) + b[k] - Low(k)
  }

  function Limit(k: nat): nat
    requires 6 <= k < 16
  {
    if k == 6 then Base(6) else Limit(k - 1) * Base(k)
  }

  lemma LimitIs74Bits()
    ensures Limit(15) == 0x400_0000_0000_0000_0000
  {
    assert Limit(7) == 0x1000;
    assert Limit(8) == 0x4_0000;
    assert Limit(9) == 0x400_0000;
    assert Limit(10) == 0x4_0000_0000;
    assert Limit(11) == 0x400_0000_0000;
    assert Limit(12) == 0x4_0000_0000_0000;
    assert Limit(13) == 0x400_0000_0000_0000;
    assert Limit(14) == 0x4_0000_0000_0000_0000;
  }

  lemma {:induction false} FieldOfPrefix(a: Bytes, b: Bytes, k: nat)
    requires |a| == 16 == |b| && 6 <= k < 16 && forall i :: 6 <= i <= k ==> a[i] == b[i]
    ensures Field(a, k) == Field(b, k)
  {
    if k > 6 { FieldOfPrefix(a, b, k - 1); }
  }

  lemma {:induction false} FieldInRange(b: Bytes, k: nat)
    requires WellLaid(b) && 6 <= k < 16
    ensures 0 <= Field(b, k) < Limit(k)
  {
    if k > 6 {
      FieldInRange(b, k - 1);
      Digits(Field(b, k - 1), Limit(k - 1), b[k] - Low(k), Base(k));
    }
  }

  lemma Digits(high: int, limit: nat, low: int, base: nat)
    requires 0 <= high < limit && 0 <= low < base
    ensures 0 <= high * base + low < limit * base
  {
    assert (high + 1) * base <= limit * base;
    assert (high + 1) * base == high * base + base;
  }

  lemma {:induction false} IncrementStaysLaid(b: Bytes, k: nat)
    requires WellLaid(b) && 6 <= k < 16
    ensures WellLaid(Incremented(b, k).bytes)
    ensures forall i :: (0 <= i < 6 || k < i < 16) ==> Incremented(b, k).bytes[i] == b[i]
    decreases k
  {
    if b[k] == High(k) && k > 6 {
      IncrementStaysLaid(b[k := Low(k)], k - 1);
    }
  }

  /** The carry loop adds exactly one to the counter, and fails only on the greatest value. */
  lemma {:induction false} IncrementAddsOne(b: Bytes, k: nat)
    requires WellLaid(b) && 6 <= k < 16
    ensures var i := Incremented(b, k);
            (i.done <==> Field(b, k) != Limit(k) - 1) &&
            (i.done ==> Field(i.bytes, k) == Field(b, k) + 1)
    decreases k
  {
    IncrementStaysLaid(b, k);
    FieldInRange(b, k);
    if b[k] < High(k) {
      NoCarry(b, k);
    } else if k > 6 {
      var reset := b[k := Low(k)];
      IncrementAddsOne(reset, k - 1);
      IncrementStaysLaid(reset, k - 1);
      FieldOfPrefix(b, reset, k - 1);
      CarryAddsOne(Field(b, k - 1), Limit(k - 1), Base(k));
    }
  }

  lemma NoCarry(b: Bytes, k: nat)
    requires WellLaid(b) && 6 <= k < 16 && b[k] < High(k)
    ensures Field(b, k) != Limit(k) - 1 && Field(b[k := b[k] + 1], k) == Field(b, k) + 1
  {
    if k > 6 {
      FieldOfPrefix(b, b[k := b[k] + 1], k - 1);
      FieldInRange(b, k - 1);
      NotTheLast(Field(b, k - 1), Limit(k - 1), b[k] - Low(k), Base(k));
    }
  }

  lemma NotTheLast(high: int, limit: nat, low: int, base: nat)
    requires 0 <= high < limit && 0 <= low < base - 1
    ensures high * base + low != limit * base - 1
  {
    assert (high + 1) * base <= limit * base;
    assert (high + 1) * base == high * base + base;
  }

  lemma CarryAddsOne(high: int, limit: nat, base: nat)
    requires 0 <= high < limit && base > 0
    ensures (high + 1) * base == high * base + (base - 1) + 1
    ensures high * base + (base - 1) == limit * base - 1 <==> high == limit - 1
  {
    assert (high + 1) * base == high * base + base;
    if high < limit - 1 {
      assert (high + 2) * base <= limit * base;
      assert (high + 2) * base == (high + 1) * base + base;
    }
  }

  lemma {:induction false} IncrementIsGreater(b: Bytes, k: nat)
    requires WellLaid(b) && 6 <= k < 16 && Incremented(b, k).done
    ensures exists i :: 6 <= i <= k && b[..i] == Incremented(b, k).bytes[..i] && b[i] < Incremented(b, k).bytes[i]
    decreases k
  {
    if b[k] < High(k) {
      assert b[..k] == b[k := b[k] + 1][..k];
    } else {
      var reset := b[k := Low(k)];
      IncrementIsGreater(reset, k - 1);
      var i :| 6 <= i <= k - 1 && reset[..i] == Incremented(reset, k - 1).bytes[..i] &&
        reset[i] < Incremented(reset, k - 1).bytes[i];
      assert b[..i] == reset[..i];
    }
  }

  // ---------------------------------------------------------------- one allocation

  lemma {:induction false} TimeOfBytes(t: nat, n: nat)
    ensures BigEndian(TimeBytes(t, n)) == t % Power256(n)
  {
    if n > 0 {
      TimeOfBytes(t / 256, n - 1);
      assert TimeBytes(t, n)[..n - 1] == TimeBytes(t / 256, n - 1);
      SplitRemainder(t, Power256(n - 1));
    }
  }

  function Power256(n: nat): nat
    ensures Power256(n) > 0
  {
    if n == 0 then 1 else Power256(n - 1) * 256
  }

  lemma SplitRemainder(t: nat, p: nat)
    requires p > 0
    ensures t / 256 % p * 256 + t % 256 == t % (p * 256)
  {
    var q, r := t / 256, t % 256;
    var a, c := q / p, q % p;
    assert t == q * 256 + r && q == a * p + c;
    assert q * 256 == a * p * 256 + c * 256;
    assert a * p * 256 == a * (p * 256);
    var low := c * 256 + r;
    assert t == a * (p * 256) + low;
    assert c + 1 <= p && (c + 1) * 256 <= p * 256;
    assert 0 <= low < p * 256;
    RemainderUnique(t, p * 256, a, low);
  }

  lemma RemainderUnique(t: nat, m: nat, a: nat, low: nat)
    requires m > 0 && t == a * m + low && low < m
    ensures t % m == low
  {
    var q, r := t / m, t % m;
    assert t == q * m + r;
    TimesMonotone(q, a + 1, m);
    TimesMonotone(a, q + 1, m);
  }

  /** The times that are accepted are those that six bytes can hold. */
  lemma ValidTimeIff(t: nat)
    ensures ValidTime(t) <==> BigEndian(TimeBytes(t, 6)) == t
  {
    TimeOfBytes(t, 6);
    assert Power256(2) == 0x1_0000 && Power256(4) == 0x1_0000_0000 && Power256(6) == 0x1_0000_0000_0000;
  }

  lemma CandidateTime(seed: Seed)
    requires ValidTime(seed.unixMilliseconds) && |seed.randomBytes| == 10
    ensures Time(Candidate(seed)) == seed.unixMilliseconds
  {
    assert Candidate(seed)[..6] == TimeBytes(seed.unixMilliseconds, 6);
    TimeOfBytes(seed.unixMilliseconds, 6);
    assert Power256(2) == 0x1_0000 && Power256(4) == 0x1_0000_0000 && Power256(6) == 0x1_0000_0000_0000;
  }

  /** The number formed by the random bits of a seed that an identifier has room for: the low 4 bits of byte 0,
      byte 1, the low 6 bits of byte 2 and the other bytes. */
  function RandomBits(r: Bytes): nat
    requires |r| == 10
  {
    ((r[0] % 0x10 * 0x100 + r[1]) * 0x40 + r[2] % 0x40) * 0x100_0000_0000_0000 + BigEndian(r[3..])
  }

  /** The counter bytes from 9 on are plain big-endian digits. */
  lemma {:induction false} FieldTail(b: Bytes, k: nat)
    requires |b| == 16 && 8 <= k < 16
    ensures Field(b, k) == Field(b, 8) * Power256(k - 8) + BigEndian(b[9..k + 1])
  {
    if k == 8 {
      assert b[9..9] == [];
    } else {
      FieldTail(b, k - 1);
      assert b[9..k + 1][..k - 9] == b[9..k];
      ShiftDigits(Field(b, 8), Power256(k - 9), BigEndian(b[9..k]), b[k]);
    }
  }

  lemma ShiftDigits(high: int, power: nat, low: nat, digit: nat)
    ensures (high * power + low) * 256 + digit == high * (power * 256) + (low * 256 + digit)
  {
    assert (high * power + low) * 256 == high * power * 256 + low * 256;
  }

  /** Every random bit there is room for reaches the identifier. */
  lemma CandidateField(seed: Seed)
    requires ValidTime(seed.unixMilliseconds) && |seed.randomBytes| == 10
    ensures Field(Candidate(seed), 15) == RandomBits(seed.randomBytes)
  {
    var b, r := Candidate(seed), seed.randomBytes;
    FieldTail(b, 15);
    assert b[9..16] == r[3..];
    var x: int, y: int, z: int := r[0], r[1], r[2];
    assert b[6] == 0x70 + x % 0x10 && b[7] == y && b[8] == 0x80 + z % 0x40;
    assert Field(b, 8) == (x % 0x10 * 0x100 + y) * 0x40 + z % 0x40 by {
      assert Field(b, 6) == x % 0x10 && Field(b, 7) == Field(b, 6) * 0x100 + y;
      assert Field(b, 8) == Field(b, 7) * 0x40 + z % 0x40;
    }
    assert Power256(2) == 0x1_0000 && Power256(4) == 0x1_0000_0000 && Power256(6) == 0x1_0000_0000_0000;
  }

  /** No identifier has been handed out, or only ones of an earlier time. */
  predicate IsFresh(previous: Option<Bytes>, seed: Seed)
    requires previous.Some? ==> |previous.value| == 16
  {
    SeedError(seed).None? && (previous.Some? ==> seed.unixMilliseconds > Time(previous.value))
  }

  /** A fresh identifier is the time and the random bits of its seed. */
  lemma FreshIdentifier(previous: Option<Bytes>, seed: Seed)
    requires (previous.Some? ==> WellLaid(previous.value)) && IsFresh(previous, seed)
    ensures var a := Allocated(previous, seed);
            a.Ok? && WellLaid(a.value) && Time(a.value) == seed.unixMilliseconds &&
            Field(a.value, 15) == RandomBits(seed.randomBytes)
  {
    CandidateTime(seed);
    CandidateField(seed);
  }

  lemma {:induction false} SameField(a: Bytes, b: Bytes, k: nat)
    requires WellLaid(a) && WellLaid(b) && 6 <= k < 16 && Field(a, k) == Field(b, k)
    ensures forall i :: 6 <= i <= k ==> a[i] == b[i]
  {
    if k > 6 {
      LastDigit(Field(a, k - 1), a[k] - Low(k), Field(b, k - 1), b[k] - Low(k), Base(k));
      SameField(a, b, k - 1);
    }
  }

  /** Time and counter determine an identifier. */
  lemma SameIdentifier(a: Bytes, b: Bytes)
    requires WellLaid(a) && WellLaid(b) && Time(a) == Time(b) && Field(a, 15) == Field(b, 15)
    ensures a == b
  {
    SameDigits(a[..6], b[..6]);
    SameField(a, b, 15);
    assert a == a[..6] + a[6..] && b == b[..6] + b[6..];
    assert a[6..] == b[6..];
  }

  /** Two allocators, each with a fresh identifier of one time, hand out the same one exactly if the random
      bits of their seeds are the same. */
  lemma FreshCollideIff(p: Option<Bytes>, seed: Seed, q: Option<Bytes>, other: Seed)
    requires (p.Some? ==> WellLaid(p.value)) && (q.Some? ==> WellLaid(q.value))
    requires IsFresh(p, seed) && IsFresh(q, other) && seed.unixMilliseconds == other.unixMilliseconds
    ensures Allocated(p, seed) == Allocated(q, other) <==> RandomBits(seed.randomBytes) == RandomBits(other.randomBytes)
  {
    hide Allocated, RandomBits;
    FreshIdentifier(p, seed);
    FreshIdentifier(q, other);
    if RandomBits(seed.randomBytes) == RandomBits(other.randomBytes) {
      SameIdentifier(Allocated(p, seed).value, Allocated(q, other).value);
    }
  }

  /** Each allocated identifier is greater than the previous one and keeps the version and variant
      bits; its time is the later of the two, and with an old clock the counter went up by one. */
  lemma AllocatedIsNext(previous: Bytes, seed: Seed)
    requires WellLaid(previous) && Allocated(Some(previous), seed).Ok?
    ensures var next := Allocated(Some(previous), seed).value;
            WellLaid(next) && Less(previous, next) &&
            Time(next) == (if seed.unixMilliseconds > Time(previous) then seed.unixMilliseconds else Time(previous)) &&
            (seed.unixMilliseconds <= Time(previous) ==> Field(next, 15) == Field(previous, 15) + 1)
  {
    CandidateTime(seed);
    if seed.unixMilliseconds > Time(previous) {
      LaterTimeIsGreater(Candidate(seed), previous);
    } else {
      IncrementStaysLaid(previous, 15);
      IncrementAddsOne(previous, 15);
      IncrementIsGreater(previous, 15);
      assert Incremented(previous, 15).bytes[..6] == previous[..6];
    }
  }

  /** With a valid seed allocation fails exactly when the clock has not advanced and the counter is
      at its greatest value. */
  lemma ExhaustedIff(previous: Bytes, seed: Seed)
    requires WellLaid(previous) && SeedError(seed).None?
    ensures Allocated(Some(previous), seed) == Err(SequenceExhausted)
       <==> seed.unixMilliseconds <= Time(previous) && Field(previous, 15) == 0x3FF_FFFF_FFFF_FFFF_FFFF
    ensures Allocated(Some(previous), seed).Err? ==> Allocated(Some(previous), seed) == Err(SequenceExhausted)
  {
    CandidateTime(seed);
    IncrementAddsOne(previous, 15);
    LimitIs74Bits();
  }

  // ---------------------------------------------------------------- every run

  /** The bytes of the identifiers a run of allocations hands out, in order; failures hand out none. */
  function Stored(seeds: seq<Seed>): (ids: seq<Bytes>)
    ensures forall i :: 0 <= i < |ids| ==> |ids[i]| == 16
  {
    if seeds == [] then []
    else
      var ids := Stored(seeds[..|seeds| - 1]);
      var a := Allocated(Last(ids), seeds[|seeds| - 1]);
      if a.Err? then ids else AllocatedLength(Last(ids), seeds[|seeds| - 1]); ids + [a.value]
  }

  function Last(ids: seq<Bytes>): Option<Bytes> { if ids == [] then None else Some(ids[|ids| - 1]) }

  lemma AllocatedLength(previous: Option<Bytes>, seed: Seed)
    requires previous.Some? ==> |previous.value| == 16
    requires Allocated(previous, seed).Ok?
    ensures |Allocated(previous, seed).value| == 16
  {
  }

  ghost predicate Ascending(ids: seq<Bytes>)
  {
    (forall i :: 0 <= i < |ids| ==> WellLaid(ids[i])) &&
    forall i, j :: 0 <= i < j < |ids| ==> Less(ids[i], ids[j]) && Less(Format(ids[i]), Format(ids[j]))
  }

  lemma AscendingAppend(ids: seq<Bytes>, next: Bytes)
    requires Ascending(ids) && WellLaid(next) && (ids != [] ==> Less(ids[|ids| - 1], next))
    ensures Ascending(ids + [next])
  {
    hide Format, Less;
    forall i | 0 <= i < |ids| ensures Less(ids[i], next) && Less(Format(ids[i]), Format(next)) {
      if i < |ids| - 1 { LessTransitive(ids[i], ids[|ids| - 1], next); }
      FormatIsMonotonic(ids[i], next);
    }
  }

  /** Every identifier of a run is greater than all earlier ones, as bytes and as text. */
  lemma {:induction false} RunIsMonotonic(seeds: seq<Seed>)
    ensures Ascending(Stored(seeds))
  {
    hide Format, Less;
    if seeds != [] {
      var ids, seed := Stored(seeds[..|seeds| - 1]), seeds[|seeds| - 1];
      RunIsMonotonic(seeds[..|seeds| - 1]);
      if Allocated(Last(ids), seed).Ok? {
        if ids != [] { AllocatedIsNext(ids[|ids| - 1], seed); }
        AscendingAppend(ids, Allocated(Last(ids), seed).value);
      }
    }
  }

  // ---------------------------------------------------------------- the text

  /** Where a hex digit stands in the formatted text. */
  function Position(k: nat): nat
  {
    if k < 8 then k else if k < 12 then k + 1 else if k < 16 then k + 2 else if k < 20 then k + 3 else k + 4
  }

  /** The digit that stands at a position which is no hyphen. */
  function DigitAt(q: nat): (k: nat)
    requires q < 36 && !IsHyphen(q)
    ensures k < 32 && Position(k) == q
  {
    if q < 8 then q else if q < 13 then q - 1 else if q < 18 then q - 2 else if q < 23 then q - 3 else q - 4
  }

  lemma FormatAt(b: Bytes, k: nat)
    requires |b| == 16 && k < 32
    ensures Format(b)[Position(k)] == Hex(b)[k]
  {
    hide Hex;
  }

  lemma HyphenAt(b: Bytes, p: nat)
    requires |b| == 16 && IsHyphen(p)
    ensures Format(b)[p] == 0x2D
  {
    hide Hex;
  }

  /** Formatting keeps the order: lowercase hex digits are ordered like their values. */
  lemma FormatIsMonotonic(a: Bytes, b: Bytes)
    requires |a| == 16 == |b| && Less(a, b)
    ensures Less(Format(a), Format(b))
  {
    hide Format, Hex;
    var i :| 0 <= i < 16 && a[..i] == b[..i] && a[i] < b[i];
    var k := if a[i] / 16 < b[i] / 16 then 2 * i else 2 * i + 1;
    forall j | 0 <= j < k ensures Hex(a)[j] == Hex(b)[j] {
      SameHex(a, b, i, j);
    }
    HexAt(a, i);
    HexAt(b, i);
    var p := Position(k);
    forall q | 0 <= q < p ensures Format(a)[q] == Format(b)[q] {
      if IsHyphen(q) {
        HyphenAt(a, q);
        HyphenAt(b, q);
      } else {
        FormatAt(a, DigitAt(q));
        FormatAt(b, DigitAt(q));
      }
    }
    FormatAt(a, k);
    FormatAt(b, k);
    assert Format(a)[..p] == Format(b)[..p];
  }

  lemma SameHex(a: Bytes, b: Bytes, i: nat, j: nat)
    requires |a| == 16 == |b| && i < 16 && a[..i] == b[..i] && a[i] < b[i]
    requires j < (if a[i] / 16 < b[i] / 16 then 2 * i else 2 * i + 1)
    ensures Hex(a)[j] == Hex(b)[j]
  {
    var h := j / 2;
    HexAt(a, h);
    HexAt(b, h);
    if h < i { assert a[..i][h] == b[..i][h]; }
  }

  // ---------------------------------------------------------------- what the parser accepts

  lemma FormattedDigit(b: Bytes, q: nat)
    requires |b| == 16 && q < 36 && !IsHyphen(q)
    ensures var k := DigitAt(q);
            Format(b)[q] == HexDigit(if k % 2 == 0 then b[k / 2] / 16 else b[k / 2] % 16)
  {
    hide Format, Hex;
    FormatAt(b, DigitAt(q));
    HexAt(b, DigitAt(q) / 2);
  }

  /** The text of every identifier with version and variant bits in place is accepted. */
  lemma FormatParses(b: Bytes)
    requires WellLaid(b)
    ensures MatchesV7(Format(b)) && ParseAllocated(Format(b)) == Ok(Format(b))
  {
    hide Format, Hex;
    var s := Format(b);
    forall p | 0 <= p < 36 ensures if IsHyphen(p) then s[p] == 0x2D else IsHexDigit(s[p]) {
      if IsHyphen(p) { HyphenAt(b, p); } else { FormattedDigit(b, p); }
    }
    FormattedDigit(b, 14);
    FormattedDigit(b, 19);
  }

  /** The bytes of a text that matches. */
  function BytesOf(s: JsString): (b: Bytes)
    requires MatchesV7(s)
    ensures |b| == 16
  {
    seq(16, i requires 0 <= i < 16 =>
      PositionIsDigit(2 * i);
      PositionIsDigit(2 * i + 1);
      HexValue(s[Position(2 * i)]) * 16 + HexValue(s[Position(2 * i + 1)]))
  }

  lemma PositionIsDigit(k: nat)
    ensures k < 32 ==> Position(k) < 36 && !IsHyphen(Position(k)) && DigitAt(Position(k)) == k
  {
  }

  /** The parser accepts exactly the texts of identifiers with version and variant bits in place. */
  lemma ParsesIff(s: JsString)
    ensures ParseAllocated(s) == Ok(s) <==> exists b :: WellLaid(b) && Format(b) == s
  {
    hide Format;
    if MatchesV7(s) {
      TextOfBytes(s);
      assert WellLaid(BytesOf(s)) && Format(BytesOf(s)) == s;
    }
    forall b | WellLaid(b) && Format(b) == s ensures ParseAllocated(s) == Ok(s) {
      FormatParses(b);
    }
  }

  lemma TextOfBytes(s: JsString)
    requires MatchesV7(s)
    ensures WellLaid(BytesOf(s)) && Format(BytesOf(s)) == s
  {
    hide Format, Hex;
    var b := BytesOf(s);
    forall q | 0 <= q < 36 ensures Format(b)[q] == s[q] {
      if IsHyphen(q) { HyphenAt(b, q); } else { FormattedDigit(b, q); }
    }
  }
}
