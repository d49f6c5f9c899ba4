/**
 μ-law (PCMU) expansion as the browser player performs it.

 The player reads each frame into a `Uint8Array`, so every code is a byte.
 `UlawToLinear` follows the JavaScript bit manipulations step by step; `Magnitude`
 is the arithmetic reading of the same expansion (the segment-and-step table of
 ITU-T G.711 μ-law, scaled by 4), and `UlawToLinearIsExpansion` ties the two.
 Bounds, ordering and injectivity are proved on the arithmetic reading; the
 concrete values and sign symmetry follow from the bit-level definition.
 */
module Ulaw {

  /** One element of the `Uint8Array` a frame is read into. */
  type Byte = bv8

  /** 2 to the power `n`. */
  function Pow2(n: nat): (r: nat)
    ensures r >= 1
  {
    if n == 0 then 1 else 2 * Pow2(n - 1)
  }

  /**
   The 32-bit pattern JavaScript's `~b` produces for a byte `b`: the operand is
   converted to a 32-bit two's complement integer and every bit is inverted, so the
   result is negative, but its low eight bits are the complement of `b`.
   */
  function Complement(b: Byte): bv32
  {
    !(b as bv32)
  }

  /** `x & 0x80 ? -1 : 1`. */
  function SignOf(x: bv32): int
  {
    if x & 0x80 != 0 then -1 else 1
  }

  /**
   `(x >> 4) & 0x07`. JavaScript's `>>` shifts arithmetically, but the mask keeps
   only bits 4 to 6 of `x`, which a logical shift selects as well.
   */
  function ExponentOf(x: bv32): nat
  {
    ((x >> 4) & 0x07) as nat
  }

  /** `x & 0x0f`. */
  function MantissaOf(x: bv32): nat
  {
    (x & 0x0f) as nat
  }

  /**
   `((mantissa << 1) + 33) << (exponent + 2)`. JavaScript's `<<` works on 32-bit
   integers; `ShiftFitsInt32` shows the value never leaves that range, so the
   shifts are multiplications by powers of two.
   */
  function Sample(mantissa: nat, exponent: nat): nat
  {
    (mantissa * 2 + 33) * Pow2(exponent + 2)
  }

  /** The decoder `ulawToLinear`: one μ-law byte to a signed linear sample. */
  function UlawToLinear(b: Byte): (r: int)
    ensures -32124 <= r <= 32124
    ensures b < 0x80 ==> r <= 0
    ensures b >= 0x80 ==> r >= 0
  {
    UlawToLinearIsExpansion(b);
    MagnitudeBounds(Code(b));
    var x := Complement(b);
    SignOf(x) * (Sample(MantissaOf(x), ExponentOf(x)) - 132)
  }

  /*
   * The arithmetic reading
   */

  /** A 7-bit code `16 * exponent + mantissa`: a position on the magnitude scale. */
  type Code7 = k: nat | k < 128

  /** The 7-bit code of byte `b`: bits 0 to 6 of its complement. */
  function Code(b: Byte): (k: Code7)
    ensures k == 127 - (b as int % 128)
  {
    ((!b) & 0x7F) as int
  }

  /**
   The magnitude of code `k`: segment `k / 16` starts at `33 << (e + 2)` and
   advances in steps of `2 << (e + 2)`, less the bias 132.
   */
  function Magnitude(k: Code7): int
  {
    (2 * (k % 16) + 33) * Pow2(k / 16 + 2) - 132
  }

  /** The complement's fields are the sign bit and the two halves of `Code(b)`. */
  lemma ComplementFields(b: Byte)
    ensures Complement(b) & 0x80 != 0 <==> b < 0x80
    ensures ExponentOf(Complement(b)) == Code(b) / 16
    ensures MantissaOf(Complement(b)) == Code(b) % 16
  {
  }

  /**
   The bit-level decoder is the arithmetic expansion: bytes below 0x80 carry the
   negative sign, and the magnitude is read from the 7-bit code.
   */
  lemma UlawToLinearIsExpansion(b: Byte)
    ensures var x := Complement(b);
      SignOf(x) * (Sample(MantissaOf(x), ExponentOf(x)) - 132)
      == (if b < 0x80 then -Magnitude(Code(b)) else Magnitude(Code(b)))
  {
    ComplementFields(b);
  }

  /** The shifts stay inside the 32-bit signed range, so `<<` never wraps. */
  lemma ShiftFitsInt32(mantissa: nat, exponent: nat)
    requires mantissa < 16 && exponent < 8
    ensures 0 < Sample(mantissa, exponent) <= 32256 < 0x8000_0000
  {
    var p := Pow2(exponent + 2);
    Pow2Monotone(exponent + 2, 9);
    assert p <= Pow2(9) == 512;
    assert (mantissa * 2 + 33) * p <= 63 * p <= 63 * 512;
  }

  lemma {:induction false} Pow2Monotone(i: nat, j: nat)
    requires i <= j
    ensures Pow2(i) <= Pow2(j)
    decreases j
  {
    if i < j {
      Pow2Monotone(i, j - 1);
    }
  }

  /*
   * Ordering and bounds
   */

  /** One step up the code scale raises the magnitude, also across a segment boundary. */
  lemma MagnitudeStep(k: Code7)
    requires k < 127
    ensures Magnitude(k) < Magnitude(k + 1)
  {
    var e := k / 16;
    if k % 16 == 15 {
      // Segment e ends at 252 << e and segment e + 1 starts at 264 << e.
      assert (k + 1) / 16 == e + 1 && (k + 1) % 16 == 0;
      assert Pow2(e + 3) == 2 * Pow2(e + 2);
    } else {
      assert (k + 1) / 16 == e && (k + 1) % 16 == k % 16 + 1;
    }
  }

  /** Magnitude strictly increases with the 7-bit code. */
  lemma {:induction false} MagnitudeMonotone(j: Code7, k: Code7)
    requires j < k
    ensures Magnitude(j) < Magnitude(k)
    decreases k - j
  {
    MagnitudeStep(j);
    if j + 1 < k {
      MagnitudeMonotone(j + 1, k);
    }
  }

  /** Magnitudes run from 0 (code 0) to 32124 (code 127). */
  lemma MagnitudeBounds(k: Code7)
    ensures 0 <= Magnitude(k) <= 32124
    ensures Magnitude(k) == 0 <==> k == 0
  {
    assert Magnitude(0) == 0;
    assert Pow2(9) == 512;
    assert Magnitude(127) == 32124;
    if 0 < k {
      MagnitudeMonotone(0, k);
    }
    if k < 127 {
      MagnitudeMonotone(k, 127);
    }
  }

  /** The two "zero" codes 0xFF and 0x7F both decode to 0. */
  lemma ZeroCodes()
    ensures UlawToLinear(0xFF) == 0 && UlawToLinear(0x7F) == 0
  {
  }

  /** 0x00 and 0x80 are the negative and positive extremes. */
  lemma ExtremeCodes()
    ensures UlawToLinear(0x00) == -32124 && UlawToLinear(0x80) == 32124
  {
  }

  /** A few entries of the standard μ-law expansion table, away from the ends. */
  lemma TableEntries()
    ensures UlawToLinear(0x01) == -31100 && UlawToLinear(0x7E) == -8
    ensures UlawToLinear(0x70) == -120 && UlawToLinear(0xF0) == 120
  {
  }

  /** Flipping bit 7 only flips the sign: the exponent and mantissa come from bits 0 to 6. */
  lemma SignSymmetry(b: Byte)
    ensures UlawToLinear(b) == -UlawToLinear(b ^ 0x80)
  {
  }

  /**
   Over 0x00..0x7F the decoded value rises with the byte (from -32124 up to 0),
   and over 0x80..0xFF it falls (from 32124 down to 0).
   */
  lemma DecodeOrder(a: Byte, b: Byte)
    requires a < b
    ensures b < 0x80 ==> UlawToLinear(a) < UlawToLinear(b)
    ensures 0x80 <= a ==> UlawToLinear(a) > UlawToLinear(b)
  {
    UlawToLinearIsExpansion(a);
    UlawToLinearIsExpansion(b);
    if b < 0x80 || 0x80 <= a {
      MagnitudeMonotone(Code(b), Code(a));
    }
  }

  /**
   Two bytes decode to the same sample only when they are equal or are the two
   zero codes 0x7F and 0xFF.
   */
  lemma DecodeInjective(a: Byte, b: Byte)
    requires UlawToLinear(a) == UlawToLinear(b)
    ensures a == b || (a == 0x7F && b == 0xFF) || (a == 0xFF && b == 0x7F)
  {
    UlawToLinearIsExpansion(a);
    UlawToLinearIsExpansion(b);
    MagnitudeBounds(Code(a));
    MagnitudeBounds(Code(b));
    if Code(a) < Code(b) {
      MagnitudeMonotone(Code(a), Code(b));
    } else if Code(b) < Code(a) {
      MagnitudeMonotone(Code(b), Code(a));
    }
  }
}
