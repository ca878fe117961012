/** IEEE 754 binary64 patterns and their sortable encoding (storage.cpp, ADR-0013).

    A `double` is its 64-bit pattern. Its numeric value is kept exact by scaling it with 2^1074,
    which makes every finite binary64 number an integer. */
module SortableDouble {
  import opened Bytes

  const TWO52: nat := 0x10_0000_0000_0000

  predicate Negative(b: u64) { b >= TWO63 }

  /** The pattern without its sign bit: exponent and fraction. */
  function Magnitude(b: u64): (m: nat)
    ensures m < TWO63
  {
    if Negative(b) then b - TWO63 else b
  }

  predicate IsNaN(b: u64) { Magnitude(b) > 2047 * TWO52 }

  predicate IsZero(b: u64) { Magnitude(b) == 0 }

  function Pow2(n: nat): (p: nat)
    ensures p > 0
  {
    if n == 0 then 1 else 2 * Pow2(n - 1)
  }

  /** The value of an unsigned pattern times 2^1074 (section 3.4 of IEEE 754-2019): subnormals have
      no implicit leading bit. Infinity gets the next value after the largest finite number. */
  function ScaledMagnitude(m: nat): nat {
    var exponent, fraction := m / TWO52, m % TWO52;
    if exponent == 0 then fraction else (TWO52 + fraction) * Pow2(exponent - 1)
  }

  function Scaled(b: u64): int {
    if Negative(b) then 0 - ScaledMagnitude(Magnitude(b)) else ScaledMagnitude(Magnitude(b))
  }

  /** `x < y` on doubles: false as soon as one side is NaN, and -0.0 is not below 0.0. */
  predicate DoubleLess(x: u64, y: u64) {
    !IsNaN(x) && !IsNaN(y) && Scaled(x) < Scaled(y)
  }

  predicate DoubleEqual(x: u64, y: u64) {
    !IsNaN(x) && !IsNaN(y) && Scaled(x) == Scaled(y)
  }

  /** The bit flips of `encode_sortable_double` before the bytes are written big-endian. */
  function Flip(b: u64): u64 {
    if Negative(b) then TWO64 - 1 - b else b + TWO63
  }

  function Unflip(f: u64): u64 {
    if f >= TWO63 then f - TWO63 else TWO64 - 1 - f
  }

  function Encode(b: u64): (s: string)
    ensures |s| == 8
  {
    ToKey(Flip(b))
  }

  function Decode(s: string): u64
    requires |s| == 8
  {
    Unflip(FromKey(s))
  }

  /** `encode_sortable_double`, filling the caller's buffer. */
  method EncodeSortableDouble(buf: array<char>, val: u64)
    requires buf.Length >= 8
    modifies buf
    ensures buf[..8] == Encode(val)
    ensures buf[8..] == old(buf[8..])
  {
    var bits: u64 := val;
    if bits >= TWO63 {
      bits := TWO64 - 1 - bits;
    } else {
      bits := bits + TWO63;
    }
    var be := ToKey(bits);
    var i := 0;
    while i < 8
      invariant 0 <= i <= 8
      invariant buf[..i] == be[..i]
      invariant buf[8..] == old(buf[8..])
    {
      buf[i] := be[i];
      i := i + 1;
    }
    assert be[..8] == be;
  }

  lemma DecodeEncode(b: u64)
    ensures Decode(Encode(b)) == b
  {
    assert FromKey(Encode(b)) == Flip(b);
  }

  /** One step up in the unsigned pattern is one step up in value, also from the largest subnormal
      to the smallest normal number and from one binade to the next. */
  lemma ScaledMagnitudeStep(m: nat)
    ensures ScaledMagnitude(m) < ScaledMagnitude(m + 1)
  {
    var e, f := m / TWO52, m % TWO52;
    if f + 1 < TWO52 {
      assert (m + 1) / TWO52 == e && (m + 1) % TWO52 == f + 1;
      if e > 0 {
        assert (TWO52 + f + 1) * Pow2(e - 1) == (TWO52 + f) * Pow2(e - 1) + Pow2(e - 1);
      }
    } else {
      assert (m + 1) / TWO52 == e + 1 && (m + 1) % TWO52 == 0;
      if e > 0 {
        assert Pow2(e) == 2 * Pow2(e - 1);
        assert TWO52 * Pow2(e) == (TWO52 + f) * Pow2(e - 1) + Pow2(e - 1);
      }
    }
  }

  lemma {:induction false} ScaledMagnitudeMonotone(m: nat, n: nat)
    requires m < n
    ensures ScaledMagnitude(m) < ScaledMagnitude(n)
    decreases n - m
  {
    ScaledMagnitudeStep(n - 1);
    if m < n - 1 { ScaledMagnitudeMonotone(m, n - 1); }
  }

  lemma ScaledOrder(m: nat, n: nat)
    ensures ScaledMagnitude(m) < ScaledMagnitude(n) <==> m < n
    ensures ScaledMagnitude(m) >= 0 && (ScaledMagnitude(m) == 0 <==> m == 0)
  {
    if m < n { ScaledMagnitudeMonotone(m, n); }
    if n < m { ScaledMagnitudeMonotone(n, m); }
    if 0 < m { ScaledMagnitudeMonotone(0, m); }
  }

  /** Byte order of the encodings is the order of the flipped patterns. */
  lemma EncodeOrder(x: u64, y: u64)
    ensures Less(Encode(x), Encode(y)) <==> Flip(x) < Flip(y)
  {
    ToKeyOrder(Flip(x), Flip(y));
  }

  /** The encoding is an order isomorphism on all numbers except that it separates the two zeros. */
  lemma EncodeIsOrderIsomorphism(x: u64, y: u64)
    requires !IsNaN(x) && !IsNaN(y)
    requires !(IsZero(x) && IsZero(y))
    ensures Less(Encode(x), Encode(y)) <==> DoubleLess(x, y)
    ensures Encode(x) == Encode(y) <==> DoubleEqual(x, y)
  {
    EncodeOrder(x, y);
    ScaledOrder(Magnitude(x), Magnitude(y));
    ScaledOrder(Magnitude(y), Magnitude(x));
    DecodeEncode(x);
    DecodeEncode(y);
  }

  /** What the isomorphism leaves out: -0.0 and 0.0 are equal numbers with different keys. */
  lemma ZerosSeparate()
    ensures DoubleEqual(TWO63, 0) && Less(Encode(TWO63), Encode(0))
  {
    EncodeOrder(TWO63, 0);
  }
}
