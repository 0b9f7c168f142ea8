/**
 The compact ("nBits") target encoding of `arith_uint256::SetCompact` and
 `arith_uint256::GetCompact`.

 A compact value is a 32-bit word: the top byte is a byte exponent e, bit 23
 is a sign flag and bits 0-22 are the mantissa. It stands for
 mantissa * 256^(e-3). `arith_uint256.cpp` is not part of this model; the two
 functions below follow the standard Bitcoin Core definitions.
 */
module Compact {
  import opened Arith

  /** The result of `SetCompact(nCompact, &fNegative, &fOverflow)`. */
  datatype Decoded = Decoded(value: uint256, negative: bool, overflow: bool)

  const EXPONENT_UNIT: nat := 0x100_0000   // 1 << 24
  const SIGN_UNIT: nat := 0x80_0000        // 0x00800000, also the mantissa bound

  function Exponent(c: uint32): nat { c / EXPONENT_UNIT }

  function Mantissa(c: uint32): nat { c % SIGN_UNIT }

  predicate SignBit(c: uint32) { (c / SIGN_UNIT) % 2 == 1 }

  /** The value mantissa * 256^(e-3) in unbounded arithmetic (truncated for e < 3). */
  function Scaled(m: nat, e: nat): nat
  {
    if e <= 3 then m / Pow256(3 - e)
    else
      var p := Pow256(e - 3);
      MulMonotone(0, m, p);
      m * p
  }

  /** The mathematical value a compact word denotes, before any 256-bit wrap. */
  function ExactValue(c: uint32): nat
  {
    Scaled(Mantissa(c), Exponent(c))
  }

  /**
   `SetCompact`: the mantissa shifted into place, kept modulo 2^256 as the
   `<<=` operator does. Both flags look at the mantissa after the right shift
   of small exponents; the overflow flag is set exactly when the denoted
   value does not fit in 256 bits, and the negative flag exactly when the
   sign bit is set on a nonzero value.
   */
  function SetCompact(c: uint32): (d: Decoded)
    ensures d.value == ExactValue(c) % TWO256
    ensures d.overflow <==> ExactValue(c) >= TWO256
    ensures d.negative <==> SignBit(c) && ExactValue(c) != 0
  {
    var size := Exponent(c);
    var word := Mantissa(c);
    var shifted := if size <= 3 then word / Pow256(3 - size) else word;
    SetCompactFacts(size, word);
    var value := if size <= 3 then shifted else (word * Pow256(size - 3)) % TWO256;
    Decoded(value,
            shifted != 0 && SignBit(c),
            shifted != 0 && (size > 34 || (shifted > 0xff && size > 33) || (shifted > 0xffff && size > 32)))
  }

  lemma SetCompactFacts(size: nat, word: nat)
    requires word < SIGN_UNIT
    ensures size <= 3 ==> word / Pow256(3 - size) <= word
    ensures size > 3 ==> (word != 0 <==> word * Pow256(size - 3) != 0)
    ensures size > 3 && word != 0 ==>
              ((size > 34 || (word > 0xff && size > 33) || (word > 0xffff && size > 32))
               <==> word * Pow256(size - 3) >= TWO256)
  {
    if size <= 3 {
      DivAntitone(word, 1, Pow256(3 - size));
    } else {
      MulMonotone(1, Pow256(size - 3), word);
      if word != 0 {
        OverflowThreshold(word, size - 3);
      }
    }
  }

  /** The byte-count thresholds of the overflow test are the 256-bit boundary. */
  lemma OverflowThreshold(word: nat, j: nat)
    requires 0 < word < SIGN_UNIT
    ensures ((j > 31 || (word > 0xff && j > 30) || (word > 0xffff && j > 29))
             <==> word * Pow256(j) >= TWO256)
  {
    Pow256Small();
    Pow256Is32Bytes();
    var a := if word <= 0xff then 0 else if word <= 0xffff then 1 else 2;
    assert Pow256(a) <= word < Pow256(a + 1);
    ShiftBounds(word, a, j);
    if a + j >= 32 {
      Pow256Monotone(32, a + j);
    } else {
      Pow256Monotone(a + 1 + j, 32);
    }
  }

  // ---------------------------------------------------------------------------
  // Encoding

  /** Assemble an exponent and a mantissa into a compact word. */
  function Assemble(size: nat, m: nat): (c: uint32)
    requires size < 256 && m < SIGN_UNIT
    ensures Exponent(c) == size && Mantissa(c) == m && !SignBit(c)
  {
    var c := size * EXPONENT_UNIT + m;
    DivModUnique(c, EXPONENT_UNIT, size, m);
    DivModUnique(c, SIGN_UNIT, 2 * size, m);
    c
  }

  /**
   `GetCompact`: keep the three most significant bytes; when that mantissa
   would set the sign bit, drop one more byte and bump the exponent. The
   result always decodes without flags to a value at most v, and to a
   nonzero value when v is nonzero: encoding rounds down.
   */
  function GetCompact(v: uint256): (c: uint32)
    ensures !SetCompact(c).negative && !SetCompact(c).overflow
    ensures SetCompact(c).value <= v
    ensures v > 0 ==> SetCompact(c).value > 0
  {
    var parts := CompactParts(v);
    Assemble(parts.0, parts.1)
  }

  /** Exponent and mantissa chosen by `GetCompact`. */
  function CompactParts(v: uint256): (r: (nat, nat))
    ensures r.0 < 256 && r.1 < SIGN_UNIT
    ensures Scaled(r.1, r.0) <= v
    ensures v > 0 ==> Scaled(r.1, r.0) > 0
  {
    var size := ByteLen(v);
    if size <= 3 then
      var m0 := v * Pow256(3 - size);
      EncodeSmall(v, size);
      SignAdjust(size, m0)
    else
      var m0 := v / Pow256(size - 3);
      EncodeLarge(v, size);
      SignAdjust(size, m0)
  }

  /** A mantissa that would set the sign bit loses its low byte to the exponent. */
  function SignAdjust(size: nat, m0: nat): (r: (nat, nat))
    requires size <= 32 && m0 < 0x100_0000
    requires m0 >= SIGN_UNIT ==> 0 < Scaled(m0 / 256, size + 1) <= Scaled(m0, size)
    ensures r.0 < 256 && r.1 < SIGN_UNIT
    ensures Scaled(r.1, r.0) <= Scaled(m0, size)
    ensures Scaled(m0, size) > 0 ==> Scaled(r.1, r.0) > 0
    ensures m0 < SIGN_UNIT ==> r == (size, m0)
    ensures m0 >= SIGN_UNIT ==> r == (size + 1, m0 / 256)
  {
    if m0 >= SIGN_UNIT then
      DivUpperBound(m0, 256, 0x1_0000);
      (size + 1, m0 / 256)
    else
      (size, m0)
  }

  /** Values of at most three bytes are shifted left into the mantissa, losing nothing. */
  lemma EncodeSmall(v: uint256, size: nat)
    requires size == ByteLen(v) && size <= 3
    ensures var m0 := v * Pow256(3 - size);
            && m0 < 0x100_0000
            && Scaled(m0, size) == v
            && (m0 >= SIGN_UNIT ==> 0 < Scaled(m0 / 256, size + 1) <= Scaled(m0, size))
  {
    Pow256Small();
    ByteLenBounds(v);
    var p := Pow256(3 - size);
    var m0 := v * p;
    Pow256Add(size, 3 - size);
    MulMonotone(v + 1, Pow256(size), p);
    MulDivCancel(v, p);
    if m0 >= SIGN_UNIT {
      if size + 1 <= 3 {
        Pow256Add(1, 2 - size);
        DivDiv(m0, 256, Pow256(2 - size));
      } else {
        DivTimesAtMost(m0, 256);
        assert Scaled(m0 / 256, size + 1) == (m0 / 256) * 256;
      }
    }
  }

  /** Values of four or more bytes keep their top three bytes. */
  lemma EncodeLarge(v: uint256, size: nat)
    requires size == ByteLen(v) && size > 3
    ensures var m0 := v / Pow256(size - 3);
            && size <= 32
            && 0x1_0000 <= m0 < 0x100_0000
            && 0 < Scaled(m0, size) <= v
            && (m0 >= SIGN_UNIT ==> 0 < Scaled(m0 / 256, size + 1) <= Scaled(m0, size))
  {
    var k := size - 3;
    var p := Pow256(k);
    var m0 := v / p;
    TopBytes(v, size, k);
    assert Scaled(m0, size) == m0 * p;
    MulMonotone(1, m0, p);
    Pow256Add(1, k);
    assert Scaled(m0 / 256, size + 1) == (m0 / 256) * Pow256(1 + k);
    assert Pow256(1 + k) == 256 * p;
    if m0 >= SIGN_UNIT {
      DropByte(m0, p);
    }
  }

  /** The top three bytes of a value of `size` bytes form a mantissa in [256^2, 256^3). */
  lemma TopBytes(v: uint256, size: nat, k: nat)
    requires size == ByteLen(v) && size == k + 3
    ensures size <= 32
    ensures 0x1_0000 <= v / Pow256(k) < 0x100_0000
    ensures (v / Pow256(k)) * Pow256(k) <= v
  {
    Pow256Small();
    Pow256Is32Bytes();
    ByteLenAtMost(v, 32);
    ByteLenBounds(v);
    var p := Pow256(k);
    Pow256Add(3, k);
    assert v < 0x100_0000 * p;
    DivUpperBound(v, p, 0x100_0000);
    Pow256Add(2, k);
    assert Pow256(size - 1) == 0x1_0000 * p;
    DivLowerBound(v, p, 0x1_0000);
    DivTimesAtMost(v, p);
  }

  /** Dropping the low mantissa byte and raising the exponent never increases the value. */
  lemma DropByte(m0: nat, p: nat)
    requires m0 >= SIGN_UNIT && p >= 1
    ensures 0 < (m0 / 256) * (256 * p) <= m0 * p
  {
    var q := m0 / 256;
    assert q * (256 * p) == (q * 256) * p;
    DivTimesAtMost(m0, 256);
    MulMonotone(q * 256, m0, p);
    MulMonotone(1, q, 256 * p);
  }

  // ---------------------------------------------------------------------------
  // Round trips

  /** Moving a zero low byte of the mantissa into the exponent keeps the value. */
  lemma DropZeroByte(m0: nat, size: nat)
    requires m0 % 256 == 0
    ensures Scaled(m0 / 256, size + 1) == Scaled(m0, size)
  {
    var q := m0 / 256;
    assert m0 == 256 * q;
    Pow256Small();
    if size + 1 <= 3 {
      var p := Pow256(2 - size);
      Pow256Add(1, 2 - size);
      DivDiv(m0, 256, p);
    } else if size == 3 {
      assert Scaled(q, size + 1) == q * Pow256(1);
    } else {
      Pow256Add(1, size - 3);
      assert Pow256(size - 2) == 256 * Pow256(size - 3);
      assert Scaled(q, size + 1) == q * (256 * Pow256(size - 3));
    }
  }

  /**
   A value that is a 23-bit mantissa times a power of 256 survives
   `GetCompact` followed by `SetCompact` exactly.
   */
  lemma EncodeExact(v: uint256, m: nat, k: nat)
    requires m < SIGN_UNIT && v == m * Pow256(k)
    ensures SetCompact(GetCompact(v)) == Decoded(v, false, false)
  {
    if m > 0 {
      PartsExact(v, m, k);
    }
    ExactRoundTrip(v);
  }

  /** When the encoder's exponent and mantissa denote v exactly, decoding its output gives v. */
  lemma ExactRoundTrip(v: uint256)
    requires Scaled(CompactParts(v).1, CompactParts(v).0) == v
    ensures SetCompact(GetCompact(v)) == Decoded(v, false, false)
  {
    var parts := CompactParts(v);
    var c := GetCompact(v);
    assert c == Assemble(parts.0, parts.1);
    assert ExactValue(c) == v;
    DivModUnique(v, TWO256, 0, v);
  }

  lemma PartsExact(v: uint256, m: nat, k: nat)
    requires 0 < m < SIGN_UNIT && v == m * Pow256(k)
    ensures Scaled(CompactParts(v).1, CompactParts(v).0) == v
  {
    var size := ByteLen(v);
    Pow256Small();
    ByteLenAtMost(m, 3);
    ByteLenBounds(m);
    var b := ByteLen(m);
    ByteLenShift(m, k);
    assert size == b + k;
    var m0 := m * Pow256(3 - b);
    if size <= 3 {
      SmallMantissa(m, k, b);
      EncodeSmall(v, size);
    } else {
      LargeMantissa(m, k, b);
    }
    if m0 >= SIGN_UNIT {
      assert b < 3;
      Pow256Add(1, 2 - b);
      assert m0 == (m * Pow256(2 - b)) * 256;
      MulDivCancel(m * Pow256(2 - b), 256);
      DropZeroByte(m0, size);
    }
  }

  lemma SmallMantissa(m: nat, k: nat, b: nat)
    requires b + k <= 3
    ensures (m * Pow256(k)) * Pow256(3 - (b + k)) == m * Pow256(3 - b)
  {
    Pow256Add(k, 3 - (b + k));
  }

  lemma LargeMantissa(m: nat, k: nat, b: nat)
    requires b <= 3 && b + k > 3
    ensures (m * Pow256(k)) / Pow256(b + k - 3) == m * Pow256(3 - b)
    ensures Scaled(m * Pow256(3 - b), b + k) == m * Pow256(k)
  {
    var j := b + k - 3;
    var pj, pk, ps := Pow256(j), Pow256(k), Pow256(3 - b);
    Pow256Add(3 - b, j);
    assert pk == ps * pj;
    var m0 := m * ps;
    assert m * pk == m0 * pj;
    MulDivCancel(m0, pj);
  }

  /** Every decoded target is a 23-bit mantissa times a power of 256. */
  lemma Representation(c: uint32) returns (m: nat, k: nat)
    ensures m < SIGN_UNIT && m * Pow256(k) == SetCompact(c).value
  {
    var e := Exponent(c);
    var w := Mantissa(c);
    var x := ExactValue(c);
    assert SetCompact(c).value == x % TWO256;
    if e <= 3 {
      var p := Pow256(3 - e);
      DivAntitone(w, 1, p);
      m, k := w / p, 0;
      assert x == m;
      DivModUnique(m, TWO256, 0, m);
    } else if e - 3 >= 32 {
      assert x == w * Pow256(e - 3);
      ShiftedOut(w, e - 3);
      m, k := 0, 0;
    } else {
      assert x == w * Pow256(e - 3);
      ShiftedPartly(w, e - 3);
      m, k := w % Pow256(32 - (e - 3)), e - 3;
    }
  }

  /** A shift by 32 bytes or more leaves nothing of a 256-bit value. */
  lemma ShiftedOut(w: nat, j: nat)
    requires j >= 32
    ensures (w * Pow256(j)) % TWO256 == 0
  {
    var p := Pow256(j - 32);
    Pow256Split32(j);
    MulRegroup(w, TWO256, p);
    ModOfMultiple(w * Pow256(j), w * p, TWO256);
  }

  /** A shift by j < 32 bytes keeps the low 32 - j bytes of the mantissa. */
  lemma ShiftedPartly(w: nat, j: nat)
    requires j < 32
    ensures (w * Pow256(j)) % TWO256 == (w % Pow256(32 - j)) * Pow256(j)
    ensures w % Pow256(32 - j) <= w
  {
    Pow256Add(32 - j, j);
    Pow256Is32Bytes();
    ModScale(w, Pow256(j), Pow256(32 - j));
    ModAtMost(w, Pow256(32 - j));
  }

  /**
   Decoding is idempotent: re-encoding a decoded target and decoding again
   gives the same target, now without flags.
   */
  lemma DecodeEncodeDecode(c: uint32)
    ensures SetCompact(GetCompact(SetCompact(c).value)) == Decoded(SetCompact(c).value, false, false)
  {
    var m, k := Representation(c);
    EncodeExact(SetCompact(c).value, m, k);
  }

  /** No decoded target is the all-ones value, so `target + 1` never wraps. */
  lemma DecodedBelowAllOnes(c: uint32)
    ensures SetCompact(c).value < TWO256 - 1
  {
    var m, k := Representation(c);
    if k > 0 {
      LowByteZero(m, k);
      WholeBytesBelowAllOnes(SetCompact(c).value, m * Pow256(k - 1));
    }
  }

  lemma LowByteZero(m: nat, k: nat)
    requires k > 0
    ensures m * Pow256(k) == (m * Pow256(k - 1)) * 256
  {
    var p := Pow256(k - 1);
    assert Pow256(k) == 256 * p;
    MulRegroup(m, 256, p);
  }

  /** A multiple of 256 below 2^256 is not 2^256 - 1. */
  lemma WholeBytesBelowAllOnes(v: nat, q: nat)
    requires v == q * 256 && v < TWO256
    ensures v < TWO256 - 1
  {
    ModOfMultiple(v, q, 256);
    assert (TWO256 - 1) % 256 == 255;
  }
}
