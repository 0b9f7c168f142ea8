/**
 Fixed-width integers as bounded mathematical integers.

 The C++ code works on `arith_uint256` (256-bit unsigned, arithmetic modulo
 2^256), `uint32_t` compact targets and `int64_t` times. Here they are `nat`
 and `int` values with their ranges written out; wherever the C++ operator
 wraps, the model applies `% TWO256` explicitly.
 */
module Arith {

  const TWO32: nat := 0x1_0000_0000
  const TWO63: int := 0x8000_0000_0000_0000
  const TWO64: nat := 0x1_0000_0000_0000_0000
  const INT64_MAX: int := 0x7fff_ffff_ffff_ffff
  const TWO256: nat := 0x1_0000_0000_0000_0000_0000_0000_0000_0000_0000_0000_0000_0000_0000_0000_0000_0000

  type uint32 = x: int | 0 <= x < 0x1_0000_0000
  type uint256 = x: int | 0 <= x < TWO256

  /** The signed 64-bit range of `int64_t`. */
  predicate IsInt64(x: int) {
    -TWO63 <= x < TWO63
  }

  /**
   An `int64_t` converted to `uint64_t` (and from there to `arith_uint256`):
   non-negative values are kept, negative ones wrap to 2^64 + x.
   */
  function Uint64Of(x: int): (u: uint256)
    requires IsInt64(x)
    ensures u < TWO64
    ensures 0 <= x ==> u == x
    ensures x < 0 ==> u == TWO64 + x
  {
    x % TWO64
  }

  /** 256^k, the weight of byte position k. */
  function Pow256(k: nat): (r: nat)
    ensures r >= 1
  {
    if k == 0 then 1 else 256 * Pow256(k - 1)
  }

  /** 2^n, the weight of bit position n. */
  function Pow2(n: nat): (r: nat)
    ensures r >= 1
  {
    if n == 0 then 1 else 2 * Pow2(n - 1)
  }

  /** Number of significant bits, as `arith_uint256::bits()` reports it. */
  function Bits(x: nat): nat
  {
    if x == 0 then 0 else 1 + Bits(x / 2)
  }

  /** Number of significant bytes: the `nSize` that `GetCompact` derives from `bits()`. */
  function ByteLen(x: nat): nat
  {
    if x == 0 then 0 else 1 + ByteLen(x / 256)
  }

  /** `~x` on a 256-bit value. */
  function Not256(x: uint256): (r: uint256)
    ensures x + r == TWO256 - 1
  {
    TWO256 - 1 - x
  }

  // ---------------------------------------------------------------------------
  // Powers

  lemma {:induction false} Pow256Add(a: nat, b: nat)
    ensures Pow256(a + b) == Pow256(a) * Pow256(b)
    decreases a
  {
    if a > 0 {
      Pow256Add(a - 1, b);
      assert Pow256(a + b) == 256 * Pow256(a - 1 + b);
    }
  }

  lemma {:induction false} Pow256Monotone(a: nat, b: nat)
    requires a <= b
    ensures Pow256(a) <= Pow256(b)
    decreases b - a
  {
    if a < b {
      Pow256Monotone(a, b - 1);
    }
  }

  lemma Pow256Small()
    ensures Pow256(1) == 256
    ensures Pow256(2) == 0x1_0000
    ensures Pow256(3) == 0x100_0000
    ensures Pow256(4) == TWO32
  {
    assert Pow256(1) == 256 * Pow256(0);
    assert Pow256(2) == 256 * Pow256(1);
    assert Pow256(3) == 256 * Pow256(2);
    assert Pow256(4) == 256 * Pow256(3);
  }

  /** The 256-bit modulus is 32 bytes. */
  lemma Pow256Is32Bytes()
    ensures Pow256(32) == TWO256
  {
    Pow256Small();
    Pow256Add(4, 4);
    Pow256Add(8, 8);
    Pow256Add(16, 16);
  }

  lemma {:induction false} Pow2Add(a: nat, b: nat)
    ensures Pow2(a + b) == Pow2(a) * Pow2(b)
    decreases a
  {
    if a > 0 {
      Pow2Add(a - 1, b);
      assert Pow2(a + b) == 2 * Pow2(a - 1 + b);
    }
  }

  lemma Pow2Of8()
    ensures Pow2(8) == 256
  {
    assert Pow2(1) == 2 * Pow2(0);
    assert Pow2(2) == 2 * Pow2(1);
    assert Pow2(3) == 2 * Pow2(2);
    assert Pow2(4) == 2 * Pow2(3);
    assert Pow2(5) == 2 * Pow2(4);
    assert Pow2(6) == 2 * Pow2(5);
    assert Pow2(7) == 2 * Pow2(6);
    assert Pow2(8) == 2 * Pow2(7);
  }

  lemma Pow2Of63()
    ensures Pow2(63) == TWO63
  {
    Pow2Of8();
    Pow2Add(8, 8);
    assert Pow2(16) == 0x1_0000;
    Pow2Add(16, 16);
    assert Pow2(32) == 0x1_0000_0000;
    Pow2Add(32, 16);
    assert Pow2(48) == 0x1_0000_0000_0000;
    Pow2Add(48, 8);
    assert Pow2(56) == 0x100_0000_0000_0000;
    assert Pow2(7) == 128 by {
      assert Pow2(8) == 2 * Pow2(7);
    }
    Pow2Add(56, 7);
  }

  // ---------------------------------------------------------------------------
  // Bit and byte length

  /** `bits()` exceeds n exactly when the value reaches 2^n. */
  lemma {:induction false} BitsExceed(x: nat, n: nat)
    ensures Bits(x) > n <==> x >= Pow2(n)
    decreases n
  {
    if n > 0 && x > 0 {
      BitsExceed(x / 2, n - 1);
      assert Pow2(n) == 2 * Pow2(n - 1);
    }
  }

  /** A value with b significant bytes lies in [256^(b-1), 256^b). */
  lemma {:induction false} ByteLenBounds(x: nat)
    ensures x < Pow256(ByteLen(x))
    ensures x > 0 ==> ByteLen(x) >= 1 && Pow256(ByteLen(x) - 1) <= x
    decreases x
  {
    if x > 0 {
      ByteLenBounds(x / 256);
      assert Pow256(ByteLen(x)) == 256 * Pow256(ByteLen(x / 256));
      if x / 256 > 0 {
        assert Pow256(ByteLen(x) - 1) == 256 * Pow256(ByteLen(x / 256) - 1);
      }
    }
  }

  /** A value below 256^n has at most n significant bytes. */
  lemma ByteLenAtMost(x: nat, n: nat)
    requires x < Pow256(n)
    ensures ByteLen(x) <= n
  {
    ByteLenBounds(x);
    if x > 0 && ByteLen(x) > n {
      Pow256Monotone(n, ByteLen(x) - 1);
    }
  }

  /** Shifting left by k bytes adds k to the byte length of a nonzero value. */
  lemma {:induction false} ByteLenShift(m: nat, k: nat)
    requires m > 0
    ensures ByteLen(m * Pow256(k)) == ByteLen(m) + k
    decreases k
  {
    if k > 0 {
      ByteLenShift(m, k - 1);
      var y := m * Pow256(k - 1);
      assert m * Pow256(k) == 256 * y;
      MulDivCancel(y, 256);
    }
  }

  // ---------------------------------------------------------------------------
  // Division and remainder

  lemma MulDivCancel(a: nat, b: nat)
    requires b > 0
    ensures (a * b) / b == a
    ensures (a * b) % b == 0
  {
    DivModUnique(a * b, b, a, 0);
  }

  /** Quotient and remainder are determined by a + remainder decomposition. */
  lemma DivModUnique(x: nat, b: nat, q: nat, r: nat)
    requires b > 0 && r < b && x == q * b + r
    ensures x / b == q && x % b == r
  {
    var q0, r0 := x / b, x % b;
    var d := q0 - q;
    assert d * b == r - r0;
    MultipleBelowIsZero(d, b);
  }

  /** The only multiple of b strictly between -b and b is zero. */
  lemma MultipleBelowIsZero(d: int, b: nat)
    requires b > 0 && -(b as int) < d * b < b
    ensures d == 0
  {
    assert d >= 1 ==> d * b == (d - 1) * b + b;
    assert d >= 1 ==> (d - 1) * b >= 0;
    assert d <= -1 ==> d * b == (d + 1) * b - b;
    assert d <= -1 ==> (d + 1) * b <= 0;
  }

  /** Dividing twice is dividing by the product. */
  lemma DivDiv(x: nat, b: nat, c: nat)
    requires b > 0 && c > 0
    ensures (x / b) / c == x / (b * c)
  {
    var q1 := x / b;
    var q2 := q1 / c;
    var r1 := q1 % c;
    NestedDecomposition(x, b, c, q1, x % b, q2, r1);
    DivModUnique(x, b * c, q2, r1 * b + x % b);
  }

  /** x = q1*b + s and q1 = q2*c + r1 give x = q2*(b*c) + (r1*b + s), with r1*b + s < b*c. */
  lemma NestedDecomposition(x: nat, b: nat, c: nat, q1: nat, s: nat, q2: nat, r1: nat)
    requires s < b && r1 < c
    requires x == q1 * b + s && q1 == q2 * c + r1
    ensures x == q2 * (b * c) + (r1 * b + s)
    ensures r1 * b + s < b * c
  {
    assert q1 * b == q2 * c * b + r1 * b;
    assert r1 * b <= (c - 1) * b;
  }

  /** The floor quotient times the divisor does not exceed the dividend. */
  lemma DivTimesAtMost(x: nat, b: nat)
    requires b > 0
    ensures (x / b) * b <= x
  {
  }

  /** The floor quotient brackets the dividend and does not exceed it. */
  lemma QuotientBounds(x: nat, b: nat)
    requires b > 0
    ensures (x / b) * b <= x < (x / b + 1) * b
    ensures x / b <= x
  {
    var q, r := x / b, x % b;
    assert x == q * b + r && r < b;
    assert (q + 1) * b == q * b + b;
    DivAntitone(x, 1, b);
  }

  /** Any q with q*b <= x is at most x / b. */
  lemma DivLowerBound(x: nat, b: nat, q: nat)
    requires b > 0 && q * b <= x
    ensures q <= x / b
  {
    var d := q - x / b;
    assert x == (x / b) * b + x % b;
    assert d * b == q * b - (x / b) * b;
    assert d * b < b;
    assert d >= 1 ==> d * b == (d - 1) * b + b;
    assert d >= 1 ==> (d - 1) * b >= 0;
  }

  /** Division is monotone in the dividend. */
  lemma DivMonotone(x: nat, y: nat, b: nat)
    requires b > 0 && x <= y
    ensures x / b <= y / b
  {
    DivLowerBound(y, b, x / b);
  }

  /** Division is antitone in the divisor. */
  lemma DivAntitone(x: nat, b: nat, c: nat)
    requires 0 < b <= c
    ensures x / c <= x / b
  {
    var q := x / c;
    DivTimesAtMost(x, c);
    MulMonotone(b, c, q);
    assert q * b <= q * c <= x;
    DivLowerBound(x, b, q);
  }

  /** Scaling by P commutes with reduction modulo Q: (a*P) mod (Q*P) = (a mod Q)*P. */
  lemma ModScale(a: nat, p: nat, q: nat)
    requires p > 0 && q > 0
    ensures (a * p) % (q * p) == (a % q) * p
  {
    var k := a / q;
    assert a == k * q + a % q;
    assert a * p == k * (q * p) + (a % q) * p;
    assert (a % q) * p < q * p;
    DivModUnique(a * p, q * p, k, (a % q) * p);
  }

  /** 2^256 / d computed as ~(d-1) / d + 1, as the block-proof formula does. */
  lemma ComplementQuotient(t: nat)
    requires t + 1 < TWO256
    ensures (TWO256 - 1 - t) / (t + 1) + 1 == TWO256 / (t + 1)
  {
    var d := t + 1;
    var q := (TWO256 - d) / d;
    var r := (TWO256 - d) % d;
    assert TWO256 - d == q * d + r;
    assert TWO256 == (q + 1) * d + r;
    DivModUnique(TWO256, d, q + 1, r);
  }

  lemma MulRegroup(a: nat, b: nat, c: nat)
    ensures a * (b * c) == (a * c) * b
  {
  }

  /** 256^j is 2^256 times 256^(j - 32). */
  lemma Pow256Split32(j: nat)
    requires j >= 32
    ensures Pow256(j) == TWO256 * Pow256(j - 32)
  {
    Pow256Add(32, j - 32);
    Pow256Is32Bytes();
  }

  /** x < a*P gives x / P < a. */
  lemma DivUpperBound(x: nat, p: nat, a: nat)
    requires p > 0 && x < a * p
    ensures x / p < a
  {
    var q := x / p;
    var d := q - a;
    assert q * p <= x;
    assert d >= 0 ==> q * p == a * p + d * p;
    assert d >= 0 ==> d * p >= 0;
  }

  /** Multiplication by a nonnegative factor is monotone. */
  lemma MulMonotone(a: nat, b: nat, c: nat)
    requires a <= b
    ensures a * c <= b * c
  {
    assert b * c == a * c + (b - a) * c;
  }

  /** A value of exactly a+1 significant bytes, shifted left by j bytes, has a+1+j bytes. */
  lemma ShiftBounds(m: nat, a: nat, j: nat)
    requires Pow256(a) <= m < Pow256(a + 1)
    ensures Pow256(a + j) <= m * Pow256(j) < Pow256(a + 1 + j)
  {
    var p, lo, hi := Pow256(j), Pow256(a), Pow256(a + 1);
    Pow256Add(a, j);
    Pow256Add(a + 1, j);
    assert Pow256(a + j) == lo * p && Pow256(a + 1 + j) == hi * p;
    MulMonotone(lo, m, p);
    MulMonotone(m + 1, hi, p);
    assert (m + 1) * p == m * p + p;
  }

  lemma ModAtMost(x: nat, p: nat)
    requires p > 0
    ensures x % p <= x
  {
    assert x == (x / p) * p + x % p;
    MulMonotone(0, x / p, p);
  }

  lemma ModOfMultiple(x: nat, q: nat, n: nat)
    requires n > 0 && x == q * n
    ensures x % n == 0
  {
    MulDivCancel(q, n);
  }
}
