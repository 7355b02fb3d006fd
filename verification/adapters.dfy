/** The primitive field adapters of the layouts: how one field of a record is read
from (and, where the source can, written to) its byte window.

Every reader takes the whole input `s` and the position `pos` where the field
starts, and either fails or returns the decoded value together with the position
just after the field, the way a construct stream advances.
 */
module Adapters {
  import opened Wrappers
  import opened LittleEndian

  /** Why decoding or encoding stopped. Offsets are positions in the input. */
  datatype Error =
    | TruncatedInput(offset: nat, wanted: nat)
    | ConstantMismatch(offset: nat, expected: int, found: int)
    | UnknownVariant(tag: nat)
    | MalformedEvent(offset: nat)
    | UnknownInstruction(variant: nat)
    | IntegerOutOfRange(value: int, width: nat)
    | UnsupportedEncode
    | ArgumentCountMismatch(wanted: nat, given: nat)
    | TimestampOutOfRange(offset: nat, seconds: nat)
    | ArrayLengthMismatch(wanted: nat, given: nat)

  /** A decoded value and the position of the first byte after it. */
  datatype Decoded<+T> = Decoded(value: T, next: nat)

  type Parsed<T> = Result<Decoded<T>, Error>

  /** A field decoder: input and start position to a decoded value. */
  type Reader<T> = (seq<byte>, nat) -> Parsed<T>

  /** A 32-byte account address. */
  type PublicKey = k: seq<byte> | |k| == 32 witness Zeros(32)

  const KEY_SIZE: nat := 32

  /** A public-key field: absent when all 32 bytes are zero. */
  type Key = Option<PublicKey>

  // ---------------------------------------------------------------- raw windows

  /** Take the next n bytes, failing when the input ends first. */
  function ReadBytes(s: seq<byte>, pos: nat, n: nat): (r: Parsed<seq<byte>>)
    ensures r.Success? <==> pos + n <= |s|
    ensures r.Success? ==> r.value == Decoded(s[pos..pos + n], pos + n)
    ensures r.Failure? ==> r.error == TruncatedInput(pos, n)
  {
    if pos + n <= |s| then Success(Decoded(s[pos..pos + n], pos + n))
    else Failure(TruncatedInput(pos, n))
  }

  /** Reserved padding: the bytes must be present, their content is ignored. */
  function Skip(s: seq<byte>, pos: nat, n: nat): (r: Parsed<()>)
    ensures r.Success? <==> pos + n <= |s|
    ensures r.Success? ==> r.value.next == pos + n
  {
    var w :- ReadBytes(s, pos, n);
    Success(Decoded((), w.next))
  }

  // ---------------------------------------------------------------- integers

  /** The n-byte little-endian unsigned integer at p, once the window is known to fit. */
  function UIntAt(s: seq<byte>, p: nat, n: nat): nat
    requires p + n <= |s|
  {
    UIntLE(s[p..p + n])
  }

  /** The n-byte little-endian two's-complement integer at p, once the window is known to fit. */
  function SIntAt(s: seq<byte>, p: nat, n: nat): int
    requires p + n <= |s|
  {
    SIntLE(s[p..p + n])
  }

  /** An n-byte little-endian unsigned integer. */
  function ReadUInt(s: seq<byte>, pos: nat, n: nat): (r: Parsed<nat>)
    ensures r.Success? <==> pos + n <= |s|
    ensures r.Success? ==> r.value.next == pos + n && r.value.value == UIntLE(s[pos..pos + n])
    ensures r.Success? && n == 1 ==> r.value.value == s[pos]
    ensures r.Success? ==> r.value == Decoded(UIntAt(s, pos, n), pos + n)
  {
    var w :- ReadBytes(s, pos, n);
    assert n == 1 ==> UIntLE(w.value) == w.value[0];
    Success(Decoded(UIntAt(s, pos, n), w.next))
  }

  /** An n-byte little-endian two's-complement signed integer. */
  function ReadSInt(s: seq<byte>, pos: nat, n: nat): (r: Parsed<int>)
    ensures r.Success? <==> pos + n <= |s|
    ensures r.Success? ==> r.value.next == pos + n && r.value.value == SIntLE(s[pos..pos + n])
    ensures r.Success? ==> r.value == Decoded(SIntAt(s, pos, n), pos + n)
  {
    var w :- ReadBytes(s, pos, n);
    Success(Decoded(SIntAt(s, pos, n), w.next))
  }

  /** Encoding an unsigned field: only integers that fit the width have an encoding. */
  function BuildUInt(x: int, n: nat): (r: Result<seq<byte>, Error>)
    ensures r.Success? <==> 0 <= x < Pow256(n)
    ensures r.Success? ==> |r.value| == n && UIntLE(r.value) == x
    ensures r.Failure? ==> r.error == IntegerOutOfRange(x, n)
  {
    if 0 <= x < Pow256(n) then
      UIntOfToLE(x, n);
      Success(ToLE(x, n))
    else
      Failure(IntegerOutOfRange(x, n))
  }

  /** Encoding a signed field: only integers in the two's-complement range of the width. */
  function BuildSInt(x: int, n: nat): (r: Result<seq<byte>, Error>)
    ensures r.Success? <==> -SignedBound(n) <= x < SignedBound(n)
    ensures r.Success? ==> |r.value| == n && SIntLE(r.value) == x
    ensures r.Failure? ==> r.error == IntegerOutOfRange(x, n)
  {
    if -SignedBound(n) <= x < SignedBound(n) then
      SIntOfToSLE(x, n);
      Success(ToSLE(x, n))
    else
      Failure(IntegerOutOfRange(x, n))
  }

  /** Unsigned: every in-range integer survives encoding then decoding. */
  lemma UIntRoundTrip(x: int, n: nat)
    requires 0 <= x < Pow256(n)
    ensures BuildUInt(x, n).Success?
    ensures ReadUInt(BuildUInt(x, n).value, 0, n) == Success(Decoded(x, n))
  {
    var b := BuildUInt(x, n).value;
    assert b[0..n] == b;
  }

  /** Unsigned: every window survives decoding then encoding. */
  lemma UIntWindowRoundTrip(s: seq<byte>, pos: nat, n: nat)
    requires pos + n <= |s|
    ensures BuildUInt(ReadUInt(s, pos, n).value.value, n) == Success(s[pos..pos + n])
  {
    ToLEOfUInt(s[pos..pos + n]);
  }

  /** Signed: every integer in range survives encoding then decoding. */
  lemma SIntRoundTrip(x: int, n: nat)
    requires -SignedBound(n) <= x < SignedBound(n)
    ensures BuildSInt(x, n).Success?
    ensures ReadSInt(BuildSInt(x, n).value, 0, n) == Success(Decoded(x, n))
  {
    var b := BuildSInt(x, n).value;
    assert b[0..n] == b;
  }

  /** Signed: every non-empty window survives decoding then encoding. */
  lemma SIntWindowRoundTrip(s: seq<byte>, pos: nat, n: nat)
    requires 0 < n && pos + n <= |s|
    ensures BuildSInt(ReadSInt(s, pos, n).value.value, n) == Success(s[pos..pos + n])
  {
    ToSLEOfSInt(s[pos..pos + n]);
  }

  /** A signed field is negative exactly when the top bit of its last byte is set. */
  lemma SIntSign(s: seq<byte>, pos: nat, n: nat)
    requires 0 < n && pos + n <= |s|
    ensures ReadSInt(s, pos, n).value.value < 0 <==> s[pos + n - 1] >= 128
  {
    SIntNegativeIffTopBit(s[pos..pos + n]);
  }

  // ---------------------------------------------------------------- public keys

  /** 32 bytes as an optional key: all zeros mean "no key". */
  function KeyOf(w: seq<byte>): Option<PublicKey>
    requires |w| == KEY_SIZE
  {
    if w == Zeros(KEY_SIZE) then None else Some(w)
  }

  /** The optional key at p, once the window is known to fit. */
  function KeyAt(s: seq<byte>, p: nat): Option<PublicKey>
    requires p + KEY_SIZE <= |s|
  {
    KeyOf(s[p..p + KEY_SIZE])
  }

  function ReadKey(s: seq<byte>, pos: nat): (r: Parsed<Option<PublicKey>>)
    ensures r.Success? <==> pos + KEY_SIZE <= |s|
    ensures r.Success? ==> r.value.next == pos + KEY_SIZE
    ensures r.Success? ==> (r.value.value.None? <==> s[pos..pos + KEY_SIZE] == Zeros(KEY_SIZE))
    ensures r.Success? && r.value.value.Some? ==> r.value.value.value == s[pos..pos + KEY_SIZE]
    ensures r.Success? ==> r.value == Decoded(KeyAt(s, pos), pos + KEY_SIZE)
  {
    var w :- ReadBytes(s, pos, KEY_SIZE);
    Success(Decoded(KeyAt(s, pos), w.next))
  }

  /** Encoding a key writes its bytes; there are no bytes for an absent key. */
  function BuildKey(k: Option<PublicKey>): (r: Result<seq<byte>, Error>)
    ensures r.Success? <==> k.Some?
    ensures r.Success? ==> |r.value| == KEY_SIZE
  {
    match k
    case Some(key) => Success(key)
    case None => Failure(UnsupportedEncode)
  }

  /** A key that is not all zeros survives encoding then decoding. */
  lemma KeyRoundTrip(k: PublicKey)
    requires k != Zeros(KEY_SIZE)
    ensures ReadKey(BuildKey(Some(k)).value, 0) == Success(Decoded(Some(k), KEY_SIZE))
  {
    assert k[0..KEY_SIZE] == k;
  }

  /** A present key's window survives decoding then encoding. */
  lemma KeyWindowRoundTrip(s: seq<byte>, pos: nat)
    requires pos + KEY_SIZE <= |s| && s[pos..pos + KEY_SIZE] != Zeros(KEY_SIZE)
    ensures BuildKey(ReadKey(s, pos).value.value) == Success(s[pos..pos + KEY_SIZE])
  {
  }

  /** The all-zero key cannot be told apart from "no key": it reads back as absent. */
  lemma ZeroKeyReadsAbsent()
    ensures BuildKey(Some(Zeros(KEY_SIZE))).Success?
    ensures ReadKey(BuildKey(Some(Zeros(KEY_SIZE))).value, 0) == Success(Decoded(None, KEY_SIZE))
  {
    assert Zeros(KEY_SIZE)[0..KEY_SIZE] == Zeros(KEY_SIZE);
  }

  // ---------------------------------------------------------------- fixed point

  /** An exact binary fixed-point number: the integer `raw` scaled down by 2^fractionBits. */
  datatype Fixed = Fixed(raw: int, fractionBits: nat)
  {
    /** The number denoted, without rounding. */
    function Value(): (v: real)
      ensures v * (Pow2(fractionBits) as real) == raw as real
      ensures v < 0.0 <==> raw < 0
    {
      raw as real / Pow2(fractionBits) as real
    }
  }

  /** An unsigned n-byte integer over 2^fractionBits. */
  function ReadFixed(s: seq<byte>, pos: nat, size: nat, fractionBits: nat): (r: Parsed<Fixed>)
    ensures r.Success? <==> pos + size <= |s|
    ensures r.Success? ==> r.value.next == pos + size
    ensures r.Success? ==> r.value.value == Fixed(UIntLE(s[pos..pos + size]), fractionBits)
  {
    var raw :- ReadUInt(s, pos, size);
    Success(Decoded(Fixed(raw.value, fractionBits), raw.next))
  }

  /** A binary fixed-point number with the point in the middle of its bits: raw / 2^(size*8/2). */
  function ReadFloat(s: seq<byte>, pos: nat, size: nat): (r: Parsed<Fixed>)
    ensures r.Success? <==> pos + size <= |s|
    ensures r.Success? ==> r.value.next == pos + size && r.value.value.raw >= 0
    ensures r.Success? ==> r.value.value.fractionBits == 4 * size
    ensures r.Success? ==> r.value.value.raw == UIntLE(s[pos..pos + size])
  {
    ReadFixed(s, pos, size, size * 8 / 2)
  }

  const I80F48_SIZE: nat := 16
  const I80F48_FRACTION_BITS: nat := 48

  /** A 16-byte I80F48 read the way the layouts read it: as an unsigned magnitude over 2^48. */
  function ReadI80F48(s: seq<byte>, pos: nat): (r: Parsed<Fixed>)
    ensures r.Success? <==> pos + 16 <= |s|
    ensures r.Success? ==> r.value.next == pos + 16
    ensures r.Success? ==> r.value.value.fractionBits == 48 && r.value.value.raw >= 0
    ensures r.Success? ==> r.value.value.raw == UIntLE(s[pos..pos + 16])
  {
    ReadFixed(s, pos, I80F48_SIZE, I80F48_FRACTION_BITS)
  }

  /** The signed I80F48 at p, once the window is known to fit. */
  function I80F48At(s: seq<byte>, p: nat): Fixed
    requires p + I80F48_SIZE <= |s|
  {
    Fixed(SIntAt(s, p, I80F48_SIZE), I80F48_FRACTION_BITS)
  }

  /** A 16-byte I80F48 read as the signed 80.48 number it is: two's complement over 2^48. */
  function ReadI80F48Signed(s: seq<byte>, pos: nat): (r: Parsed<Fixed>)
    ensures r.Success? <==> pos + 16 <= |s|
    ensures r.Success? ==> r.value.next == pos + 16
    ensures r.Success? ==> r.value.value.fractionBits == 48
    ensures r.Success? ==> r.value.value.raw == SIntLE(s[pos..pos + 16])
    ensures r.Success? ==> r.value == Decoded(I80F48At(s, pos), pos + I80F48_SIZE)
  {
    var w :- ReadBytes(s, pos, I80F48_SIZE);
    Success(Decoded(I80F48At(s, pos), w.next))
  }

  /** The source's unsigned reading and the signed one agree while the top bit is clear
      and differ by exactly 2^128 once it is set, so either determines the other. */
  lemma I80F48Readings(s: seq<byte>, pos: nat)
    requires pos + 16 <= |s|
    ensures var u := ReadI80F48(s, pos).value.value.raw;
      var v := ReadI80F48Signed(s, pos).value.value.raw;
      (s[pos + 15] < 128 ==> v == u) && (s[pos + 15] >= 128 ==> v == u - Pow256(16))
  {
    var w := s[pos..pos + 16];
    SIntNegativeIffTopBit(w);
    assert w[15] == s[pos + 15];
  }

  /** A signed I80F48 is negative exactly when the top bit of its last byte is set. */
  lemma I80F48Sign(s: seq<byte>, pos: nat)
    requires pos + 16 <= |s|
    ensures ReadI80F48Signed(s, pos).value.value.Value() < 0.0 <==> s[pos + 15] >= 128
  {
    var w := s[pos..pos + 16];
    SIntNegativeIffTopBit(w);
    assert w[15] == s[pos + 15];
  }

  /** The all-ones I80F48 is -2^-48, yet the unsigned reading makes it (2^128 - 1) / 2^48. */
  lemma I80F48AllOnesSign(s: seq<byte>, pos: nat)
    requires pos + 16 <= |s| && forall i | pos <= i < pos + 16 :: s[i] == 255
    ensures ReadI80F48(s, pos).value.value == Fixed(Pow256(16) - 1, 48)
    ensures ReadI80F48Signed(s, pos).value.value == Fixed(-1, 48)
  {
    var w := s[pos..pos + 16];
    assert w == seq(16, _ => 255);
    AllOnes(16);
  }

  lemma {:induction false} AllOnes(n: nat)
    ensures UIntLE(seq(n, _ => 255)) == Pow256(n) - 1
  {
    if n > 0 {
      var w: seq<byte> := seq(n, _ => 255);
      assert w[1..] == seq(n - 1, _ => 255);
      AllOnes(n - 1);
    }
  }

  /** A midpoint value of any width: all zero bytes denote 0. */
  lemma FloatZero(size: nat)
    ensures ReadFloat(Zeros(size), 0, size).Success?
    ensures ReadFloat(Zeros(size), 0, size).value.value.Value() == 0.0
  {
    var z := Zeros(size);
    assert z[0..size] == z;
    ZerosDenoteZero(size);
  }

  /** A midpoint value of width 2k: the integer 2^(8k), one unit above the point, denotes 1. */
  lemma FloatOne(k: nat)
    requires k > 0
    ensures Pow256(k) < Pow256(2 * k)
    ensures ReadFloat(ToLE(Pow256(k), 2 * k), 0, 2 * k).Success?
    ensures ReadFloat(ToLE(Pow256(k), 2 * k), 0, 2 * k).value.value.Value() == 1.0
  {
    Pow256Increases(k, 2 * k);
    var w := ToLE(Pow256(k), 2 * k);
    assert w[0..2 * k] == w;
    UIntOfToLE(Pow256(k), 2 * k);
    var f := ReadFloat(w, 0, 2 * k).value.value;
    assert f.raw == Pow256(k) && f.fractionBits == 8 * k;
    Pow256IsPow2(k);
    FixedUnit(f);
  }

  /** A raw integer equal to the scale denotes exactly one. */
  lemma FixedUnit(f: Fixed)
    requires f.raw == Pow2(f.fractionBits)
    ensures f.Value() == 1.0
  {
    SelfRatio(Pow2(f.fractionBits) as real);
  }

  lemma SelfRatio(p: real)
    requires p > 0.0
    ensures p / p == 1.0
  {
  }

  lemma {:induction false} ZerosDenoteZero(n: nat)
    ensures UIntLE(Zeros(n)) == 0
  {
    if n > 0 {
      assert Zeros(n)[1..] == Zeros(n - 1);
      ZerosDenoteZero(n - 1);
    }
  }

  // ---------------------------------------------------------------- timestamps

  /** The last second a Python `datetime` can hold, 9999-12-31 23:59:59, counted in UTC. */
  const MAX_TIMESTAMP: nat := 253402300799

  /** Days from 1970-01-01 to January 1st of `year` in the Gregorian calendar, for years
      after 1970, counted from the leap years in between. */
  function DaysSinceEpoch(year: nat): nat
    requires year >= 1970
  {
    365 * (year - 1970) + LeapYearsBefore(year) - LeapYearsBefore(1970)
  }

  /** Leap years in 1..year-1: multiples of 4, less centuries, plus multiples of 400. */
  function LeapYearsBefore(year: nat): nat
    requires year >= 1
  {
    (year - 1) / 4 - (year - 1) / 100 + (year - 1) / 400
  }

  /** The largest timestamp is the second before the year 10000 begins. */
  lemma MaxTimestampIsEndOfYear9999()
    ensures MAX_TIMESTAMP + 1 == 86400 * DaysSinceEpoch(10000)
  {
  }

  /** A u64 count of seconds since the Unix epoch, turned into a date: a count past the
      last representable second makes the conversion fail. */
  function ReadTimestamp(s: seq<byte>, pos: nat): (r: Parsed<nat>)
    ensures r.Success? <==> pos + 8 <= |s| && UIntLE(s[pos..pos + 8]) <= MAX_TIMESTAMP
    ensures r.Success? ==> r.value == Decoded(UIntLE(s[pos..pos + 8]), pos + 8)
    ensures pos + 8 > |s| ==> r == Failure(TruncatedInput(pos, 8))
    ensures pos + 8 <= |s| && UIntLE(s[pos..pos + 8]) > MAX_TIMESTAMP ==>
      r == Failure(TimestampOutOfRange(pos, UIntLE(s[pos..pos + 8])))
  {
    var seconds :- ReadUInt(s, pos, 8);
    if seconds.value <= MAX_TIMESTAMP then Success(seconds)
    else Failure(TimestampOutOfRange(pos, seconds.value))
  }

  /** Every instant up to the end of year 9999 reads back; the largest u64 does not. */
  lemma TimestampLimits(s: seq<byte>, pos: nat)
    requires pos + 8 <= |s|
    ensures UIntLE(s[pos..pos + 8]) <= MAX_TIMESTAMP ==> ReadTimestamp(s, pos).Success?
    ensures s[pos..pos + 8] == seq(8, _ => 255) ==> ReadTimestamp(s, pos).Failure?
  {
    if s[pos..pos + 8] == seq(8, _ => 255) {
      AllOnes(8);
    }
  }

  // ---------------------------------------------------------------- order keys

  /** The three facets of a 16-byte order key. */
  datatype OrderKey = OrderKey(orderId: nat, price: nat, sequenceNumber: nat)

  /** The order key at p, once the window is known to fit. */
  function OrderKeyAt(s: seq<byte>, p: nat): OrderKey
    requires p + 16 <= |s|
  {
    OrderKey(UIntAt(s, p, 16), UIntAt(s, p + 8, 8), UIntAt(s, p, 8))
  }

  function ReadOrderKey(s: seq<byte>, pos: nat): (r: Parsed<OrderKey>)
    ensures r.Success? <==> pos + 16 <= |s|
    ensures r.Success? ==> r.value.next == pos + 16
    ensures r.Success? ==> r.value.value.orderId == UIntLE(s[pos..pos + 16])
    ensures r.Success? ==> r.value.value.sequenceNumber == UIntLE(s[pos..pos + 8])
    ensures r.Success? ==> r.value.value.price == UIntLE(s[pos + 8..pos + 16])
    ensures r.Success? ==>
      r.value.value.orderId == r.value.value.price * Pow256(8) + r.value.value.sequenceNumber
  {
    var w :- ReadBytes(s, pos, 16);
    OrderKeyHalves(s, pos);
    Success(Decoded(OrderKeyAt(s, pos), w.next))
  }

  /** A 16-byte window is its high 8 bytes scaled by 256^8 plus its low 8 bytes. */
  lemma OrderKeyHalves(s: seq<byte>, pos: nat)
    requires pos + 16 <= |s|
    ensures UIntLE(s[pos..pos + 16]) == UIntLE(s[pos + 8..pos + 16]) * Pow256(8) + UIntLE(s[pos..pos + 8])
  {
    var low, high := s[pos..pos + 8], s[pos + 8..pos + 16];
    assert s[pos..pos + 16] == low + high;
    UIntLEConcat(low, high);
  }

  /** There is no encoder for an order key. */
  function BuildOrderKey(k: OrderKey): (r: Result<seq<byte>, Error>)
    ensures r == Failure(UnsupportedEncode)
  {
    Failure(UnsupportedEncode)
  }

  /** Splitting the raw 128-bit order id: price is its high half, the sequence number its low half. */
  lemma OrderKeyOfOrderId(s: seq<byte>, pos: nat)
    requires pos + 16 <= |s|
    ensures var k := ReadOrderKey(s, pos).value.value;
      k.price == k.orderId / Pow256(8) && k.sequenceNumber == k.orderId % Pow256(8)
  {
    var k := ReadOrderKey(s, pos).value.value;
    assert k.sequenceNumber < Pow256(8);
    DivModUnique(k.orderId, Pow256(8), k.price, k.sequenceNumber);
  }

  lemma DivModUnique(x: int, d: int, q: int, m: int)
    requires d > 0 && 0 <= m < d && x == q * d + m
    ensures q == x / d && m == x % d
  {
    var q', m' := x / d, x % d;
    assert x == q' * d + m' && 0 <= m' < d;
    assert (q - q') * d == m' - m;
    assert (q' - q) * d == m - m';
    if q - q' >= 1 {
      MulAtLeast(q - q', d);
    } else if q' - q >= 1 {
      MulAtLeast(q' - q, d);
    }
  }

  lemma MulAtLeast(k: int, d: int)
    requires k >= 1 && d > 0
    ensures k * d >= d
  {
    assert k * d == d + (k - 1) * d;
  }

  /** The worked example: sequence number 7 below, price 500 above. */
  lemma OrderKeyExample()
    ensures ReadOrderKey(ToLE(7, 8) + ToLE(500, 8), 0).Success?
    ensures ReadOrderKey(ToLE(7, 8) + ToLE(500, 8), 0).value.value
         == OrderKey(500 * Pow256(8) + 7, 500, 7)
  {
    var w := ToLE(7, 8) + ToLE(500, 8);
    assert w[0..16] == w && w[0..8] == ToLE(7, 8) && w[8..16] == ToLE(500, 8);
    UIntOfToLE(7, 8);
    UIntOfToLE(500, 8);
  }

  // ---------------------------------------------------------------- flags and constants

  /** A one-byte boolean: any non-zero byte is true. */
  function ReadFlag(s: seq<byte>, pos: nat): (r: Parsed<bool>)
    ensures r.Success? <==> pos + 1 <= |s|
    ensures r.Success? ==> r.value.next == pos + 1 && (r.value.value <==> s[pos] != 0)
  {
    var w :- ReadBytes(s, pos, 1);
    Success(Decoded(w.value[0] != 0, w.next))
  }

  function BuildFlag(b: bool): (r: seq<byte>)
    ensures |r| == 1 && ReadFlag(r, 0) == Success(Decoded(b, 1))
  {
    if b then [1] else [0]
  }

  /** An n-byte unsigned field that must hold the value `expected`. */
  function ReadConstUInt(s: seq<byte>, pos: nat, n: nat, expected: nat): (r: Parsed<nat>)
    ensures r.Success? <==> pos + n <= |s| && UIntLE(s[pos..pos + n]) == expected
    ensures r.Success? ==> r.value == Decoded(expected, pos + n)
    ensures pos + n <= |s| && UIntLE(s[pos..pos + n]) != expected ==>
      r == Failure(ConstantMismatch(pos, expected, UIntLE(s[pos..pos + n])))
  {
    var v :- ReadUInt(s, pos, n);
    if v.value == expected then Success(v)
    else Failure(ConstantMismatch(pos, expected, v.value))
  }

  /** A single byte that must equal `expected`. */
  function ReadConstByte(s: seq<byte>, pos: nat, expected: byte): (r: Parsed<byte>)
    ensures r.Success? <==> pos + 1 <= |s| && s[pos] == expected
    ensures r.Success? ==> r.value == Decoded(expected, pos + 1)
    ensures pos + 1 <= |s| && s[pos] != expected ==> r == Failure(ConstantMismatch(pos, expected, s[pos]))
  {
    var w :- ReadBytes(s, pos, 1);
    if w.value[0] == expected then Success(Decoded(expected, w.next))
    else Failure(ConstantMismatch(pos, expected, w.value[0]))
  }
}
