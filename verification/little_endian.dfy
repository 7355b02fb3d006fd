/** Integers as little-endian byte windows: the arithmetic under every adapter.
An n-byte window denotes an unsigned value below 256^n, or a two's-complement
signed value in [-256^n/2, 256^n/2).
 */
module LittleEndian {

  /** One byte of an account blob. */
  type byte = b: int | 0 <= b < 256

  function Pow2(n: nat): (r: nat)
    ensures r > 0
  {
    if n == 0 then 1 else 2 * Pow2(n - 1)
  }

  /** 256^n, the number of distinct values of an n-byte window. */
  function Pow256(n: nat): (r: nat)
    ensures r > 0
  {
    if n == 0 then 1 else 256 * Pow256(n - 1)
  }

  lemma {:induction false} Pow2Add(a: nat, b: nat)
    ensures Pow2(a + b) == Pow2(a) * Pow2(b)
    decreases b
  {
    if b > 0 {
      Pow2Add(a, b - 1);
      assert Pow2(a + b) == 2 * Pow2(a + b - 1);
    }
  }

  /** An n-byte window is 8n bits wide. */
  lemma {:induction false} Pow256IsPow2(n: nat)
    ensures Pow256(n) == Pow2(8 * n)
  {
    if n > 0 {
      Pow256IsPow2(n - 1);
      Pow2Add(8 * (n - 1), 8);
      assert 8 * n == 8 * (n - 1) + 8;
    }
  }

  lemma {:induction false} Pow256Increases(a: nat, b: nat)
    requires a < b
    ensures Pow256(a) < Pow256(b)
  {
    if b > a + 1 {
      Pow256Increases(a, b - 1);
    }
  }

  /** The unsigned integer a byte window denotes, least significant byte first. */
  function UIntLE(b: seq<byte>): (r: nat)
    ensures r < Pow256(|b|)
  {
    if |b| == 0 then 0 else b[0] + 256 * UIntLE(b[1..])
  }

  /** The n-byte little-endian window of an integer that fits in n bytes. */
  function ToLE(x: nat, n: nat): (b: seq<byte>)
    requires x < Pow256(n)
    ensures |b| == n
  {
    if n == 0 then [] else [x % 256] + ToLE(x / 256, n - 1)
  }

  /** Encoding then decoding an in-range integer gives it back. */
  lemma {:induction false} UIntOfToLE(x: nat, n: nat)
    requires x < Pow256(n)
    ensures UIntLE(ToLE(x, n)) == x
  {
    if n > 0 {
      UIntOfToLE(x / 256, n - 1);
      var b := ToLE(x, n);
      assert b[1..] == ToLE(x / 256, n - 1);
    }
  }

  /** Decoding then encoding a window gives the window back. */
  lemma {:induction false} ToLEOfUInt(b: seq<byte>)
    ensures ToLE(UIntLE(b), |b|) == b
  {
    if |b| > 0 {
      ToLEOfUInt(b[1..]);
      var x := UIntLE(b);
      assert x % 256 == b[0] && x / 256 == UIntLE(b[1..]);
    }
  }

  /** Two windows denoting the same integer are the same window. */
  lemma UIntLEInjective(a: seq<byte>, b: seq<byte>)
    requires |a| == |b| && UIntLE(a) == UIntLE(b)
    ensures a == b
  {
    ToLEOfUInt(a);
    ToLEOfUInt(b);
  }

  /** A window split in two: the high part is scaled by 256^|low part|. */
  lemma {:induction false} UIntLEConcat(a: seq<byte>, b: seq<byte>)
    ensures UIntLE(a + b) == UIntLE(a) + Pow256(|a|) * UIntLE(b)
    decreases |a|
  {
    if |a| > 0 {
      UIntLEConcat(a[1..], b);
      assert (a + b)[1..] == a[1..] + b;
      assert (a + b)[0] == a[0];
      var x, y, p := UIntLE(a[1..]), UIntLE(b), Pow256(|a| - 1);
      assert UIntLE(a + b) == a[0] + 256 * (x + p * y);
      Distribute(x, p, y);
    } else {
      assert a + b == b;
    }
  }

  lemma Distribute(x: int, p: int, y: int)
    ensures 256 * (x + p * y) == 256 * x + (256 * p) * y
  {
  }

  /** The smallest value a signed n-byte window can hold is -SignedBound(n). */
  function SignedBound(n: nat): int
  {
    Pow256(n) / 2
  }

  /** The two's-complement signed integer a byte window denotes. */
  function SIntLE(b: seq<byte>): (r: int)
  {
    var u := UIntLE(b);
    if |b| > 0 && u >= SignedBound(|b|) then u - Pow256(|b|) else u
  }

  /** The n-byte two's-complement window of an integer in the signed range. */
  function ToSLE(x: int, n: nat): (b: seq<byte>)
    requires -SignedBound(n) <= x < SignedBound(n)
    ensures |b| == n
  {
    ToLE(if x < 0 then x + Pow256(n) else x, n)
  }

  lemma SignedBoundHalf(n: nat)
    requires n > 0
    ensures 2 * SignedBound(n) == Pow256(n)
  {
    assert Pow256(n) == 256 * Pow256(n - 1);
  }

  /** A signed window denotes a value in [-256^n/2, 256^n/2). */
  lemma SIntLERange(b: seq<byte>)
    requires |b| > 0
    ensures -SignedBound(|b|) <= SIntLE(b) < SignedBound(|b|)
  {
    SignedBoundHalf(|b|);
  }

  /** Signed encoding then decoding gives the integer back. */
  lemma SIntOfToSLE(x: int, n: nat)
    requires -SignedBound(n) <= x < SignedBound(n)
    ensures SIntLE(ToSLE(x, n)) == x
  {
    SignedBoundHalf(n);
    UIntOfToLE(if x < 0 then x + Pow256(n) else x, n);
  }

  /** Signed decoding then encoding gives the window back. */
  lemma ToSLEOfSInt(b: seq<byte>)
    requires |b| > 0
    ensures -SignedBound(|b|) <= SIntLE(b) < SignedBound(|b|)
    ensures ToSLE(SIntLE(b), |b|) == b
  {
    SIntLERange(b);
    SignedBoundHalf(|b|);
    ToLEOfUInt(b);
  }

  /** A signed window is negative exactly when the top bit of its last byte is set. */
  lemma SIntNegativeIffTopBit(b: seq<byte>)
    requires |b| > 0
    ensures SIntLE(b) < 0 <==> b[|b| - 1] >= 128
  {
    var n := |b|;
    var low, high := b[..n - 1], b[n - 1..];
    assert b == low + high;
    UIntLEConcat(low, high);
    assert UIntLE(high) == b[n - 1] by {
      assert high[1..] == [];
    }
    var p := Pow256(n - 1);
    assert Pow256(n) == 256 * p;
    SignedBoundHalf(n);
    assert SignedBound(n) == 128 * p;
    TopByteScale(UIntLE(low), p, b[n - 1]);
  }

  /** With 0 <= low < p, the value low + p * h reaches 128 * p exactly when h does 128. */
  lemma TopByteScale(low: int, p: int, h: int)
    requires 0 <= low < p && 0 <= h
    ensures low + p * h >= 128 * p <==> h >= 128
  {
    if h >= 128 {
      assert p * h == p * 128 + p * (h - 128);
    } else {
      assert p * h <= p * 127 by {
        assert p * 127 - p * h == p * (127 - h);
      }
    }
  }

  /** The window of n zero bytes. */
  function Zeros(n: nat): (z: seq<byte>)
    ensures |z| == n
  {
    seq(n, _ => 0)
  }
}
