/** Bit-extraction helpers of the estimator (src/utils.rs).

    A 64-bit hash is modelled as a natural number below 2^64.  Rust's bit
    operators are given their arithmetic meaning: `x >> n` is `Shr(x, n)`,
    `a & b` is the bitwise `And`, and bit `i` of `x` is `Bit(x, i)`.  Each
    helper is then related to that meaning by a contract or a lemma.
 */
module Bits {
  import opened Ints

  /** 2^n */
  function Pow2(n: nat): (r: nat)
    ensures r > 0
  {
    if n == 0 then 1 else 2 * Pow2(n - 1)
  }

  /** Logical right shift `x >> n`: drop the low `n` bits. */
  function Shr(x: nat, n: nat): nat
  {
    if n == 0 then x else Shr(x / 2, n - 1)
  }

  /** Bit `i` of `x` (0 or 1). */
  function Bit(x: nat, i: nat): nat
  {
    Shr(x, i) % 2
  }

  /** Bitwise and of two naturals, one bit at a time from the bottom. */
  function And(a: nat, b: nat): nat
  {
    if a == 0 || b == 0 then 0 else 2 * And(a / 2, b / 2) + (a % 2) * (b % 2)
  }

  /** `u64::trailing_zeros` for a non-zero value: the index of the lowest set bit. */
  function TrailingZerosNonZero(x: nat): (r: nat)
    requires x > 0
    ensures Bit(x, r) == 1
    ensures forall i :: 0 <= i < r ==> Bit(x, i) == 0
    decreases x
  {
    if x % 2 == 1 then 0
    else
      BitOfHalf(x);
      TrailingZerosNonZero(x / 2) + 1
  }

  /** `u64::trailing_zeros`: 64 for the value 0. */
  function TrailingZeros(x: U64): (r: nat)
    ensures r <= 64
    ensures r == 64 <==> x == 0
    ensures x != 0 ==> Bit(x, r) == 1 && forall i :: 0 <= i < r ==> Bit(x, i) == 0
  {
    if x == 0 then 64
    else
      var r := TrailingZerosNonZero(x);
      Pow2Values();
      LowestSetBitBelow(x, 64, r);
      r
  }

  /** `pow_two(p) = 1 << p` on u32; the shift cannot overflow for p <= 31. */
  function PowTwo(p: U8): (r: U32)
    requires p <= 31
    ensures r == Pow2(p)
  {
    Pow2Values();
    Pow2Monotone(p, 31);
    Pow2(p)
  }

  /** `get_bucket(precision, hash)`: the low `precision` bits of the hash,
      extracted with the mask `(1 << precision) - 1`.  A precision of 64 or
      more panics, which the precondition rules out. */
  function GetBucket(precision: U8, hash: U64): (r: nat)
    requires precision <= 63
    ensures r == hash % Pow2(precision)
    ensures r < Pow2(precision)
  {
    if precision == 0 then 0
    else
      AndLowMask(hash, precision);
      And(hash, Pow2(precision) - 1)
  }

  /** `longest_run(percision, hash)`: trailing zeros of `hash >> percision`,
      plus one.  A shift by 64 or more overflows (a panic in debug builds, a
      shift amount masked to its low six bits in release builds), which the
      precondition rules out. */
  function LongestRun(precision: U8, hash: U64): (r: U8)
    requires precision <= 63
    ensures 1 <= r <= 65
    ensures r == 65 <==> Shr(hash, precision) == 0
    ensures r < 65 ==>
              Bit(hash, precision + r - 1) == 1 &&
              forall i :: precision <= i < precision + r - 1 ==> Bit(hash, i) == 0
  {
    ShrOfU64(hash, precision);
    var r := TrailingZeros(Shr(hash, precision)) + 1;
    RunBitsOfHash(hash, precision, r - 1);
    r
  }

  /** A right shift of a `u64` is a `u64`. */
  lemma ShrOfU64(x: U64, k: nat)
    requires k <= 64
    ensures Shr(x, k) < TWO_TO_THE_64
  {
    Pow2Values();
    ShrBound(x, k, 64);
    Pow2Monotone(64 - k, 64);
  }

  // ---------------------------------------------------------------------
  // Which bits of the hash each helper reads
  // ---------------------------------------------------------------------

  /** The bucket depends only on the bits below `precision`. */
  lemma GetBucketReadsLowBits(precision: U8, h1: U64, h2: U64)
    requires precision <= 63
    requires forall i :: 0 <= i < precision ==> Bit(h1, i) == Bit(h2, i)
    ensures GetBucket(precision, h1) == GetBucket(precision, h2)
  {
    BitsDetermineMod(h1, h2, precision);
  }

  /** The run length depends only on the bits at or above `precision`. */
  lemma LongestRunReadsHighBits(precision: U8, h1: U64, h2: U64)
    requires precision <= 63
    requires forall i :: precision <= i < 64 ==> Bit(h1, i) == Bit(h2, i)
    ensures LongestRun(precision, h1) == LongestRun(precision, h2)
  {
    var n := 64 - precision;
    var a, b := Shr(h1, precision), Shr(h2, precision);
    Pow2Values();
    ShrBound(h1, precision, 64);
    ShrBound(h2, precision, 64);
    forall i | 0 <= i < n ensures Bit(a, i) == Bit(b, i) {
      BitOfShr(h1, precision, precision + i);
      BitOfShr(h2, precision, precision + i);
    }
    BitsDetermineMod(a, b, n);
    DivUnique(a, Pow2(n), 0, a);
    DivUnique(b, Pow2(n), 0, b);
  }

  /** For a hash that fits in 32 bits, as the Murmur3 hasher produces, the
      run length is at most `32 - precision` unless the bits above
      `precision` are all zero, in which case it is 65. */
  lemma LongestRunOfU32Hash(precision: U8, hash: U64)
    requires precision <= 31
    requires hash < TWO_TO_THE_32
    ensures LongestRun(precision, hash) <= 32 - precision || LongestRun(precision, hash) == 65
  {
    var r := LongestRun(precision, hash);
    if r < 65 {
      Pow2Values();
      LowestSetBitBelow(hash, 32, precision + r - 1);
    }
  }

  /** Two values with the same low `n` bits agree modulo 2^n. */
  lemma {:induction false} BitsDetermineMod(a: nat, b: nat, n: nat)
    requires forall i :: 0 <= i < n ==> Bit(a, i) == Bit(b, i)
    ensures a % Pow2(n) == b % Pow2(n)
    decreases n
  {
    if n > 0 {
      assert Bit(a, 0) == Bit(b, 0);
      BitOfHalf(a);
      BitOfHalf(b);
      forall i | 0 <= i < n - 1 ensures Bit(a / 2, i) == Bit(b / 2, i) {
        assert Bit(a, i + 1) == Bit(b, i + 1);
      }
      BitsDetermineMod(a / 2, b / 2, n - 1);
      HalveDiv(a, Pow2(n - 1));
      HalveDiv(b, Pow2(n - 1));
    }
  }

  // ---------------------------------------------------------------------
  // Arithmetic facts about the bit model
  // ---------------------------------------------------------------------

  lemma Pow2Values()
    ensures Pow2(32) == TWO_TO_THE_32 && Pow2(64) == TWO_TO_THE_64
  {
    Pow2Of32();
    Pow2Add(32, 32);
  }

  lemma Pow2Of16()
    ensures Pow2(16) == 0x1_0000
  {
    assert Pow2(8) == 256;
    Pow2Add(8, 8);
  }

  lemma Pow2Of32()
    ensures Pow2(32) == TWO_TO_THE_32
  {
    Pow2Of16();
    Pow2Add(16, 16);
  }

  lemma {:induction false} Pow2Monotone(a: nat, b: nat)
    requires a <= b
    ensures Pow2(a) <= Pow2(b)
    decreases b
  {
    if a < b { Pow2Monotone(a, b - 1); }
  }

  lemma {:induction false} Pow2Add(a: nat, b: nat)
    ensures Pow2(a + b) == Pow2(a) * Pow2(b)
    decreases a
  {
    if a > 0 { Pow2Add(a - 1, b); }
  }

  lemma MulLe(d: nat, a: nat, b: nat)
    requires a <= b
    ensures d * a <= d * b
  {
  }

  /** Quotient and remainder are determined by `y == d * q + s`, `s < d`. */
  lemma DivUnique(y: nat, d: nat, q: nat, s: nat)
    requires 0 <= s < d
    requires y == d * q + s
    ensures y / d == q && y % d == s
  {
    var q', s' := y / d, y % d;
    assert y == d * q' + s';
    assert d * (q + 1) == d * q + d;
    assert d * (q' + 1) == d * q' + d;
    if q' > q {
      MulLe(d, q + 1, q');
    } else if q' < q {
      MulLe(d, q' + 1, q);
    }
  }

  /** Halving commutes with dividing by the rest of a power of two. */
  lemma HalveDiv(y: nat, q: nat)
    requires q > 0
    ensures y / (2 * q) == (y / 2) / q
    ensures y % (2 * q) == 2 * ((y / 2) % q) + y % 2
  {
    var h := y / 2;
    var t, s := h / q, h % q;
    assert h == q * t + s;
    assert y == 2 * h + y % 2;
    assert y == (2 * q) * t + (2 * s + y % 2);
    DivUnique(y, 2 * q, t, 2 * s + y % 2);
  }

  /** `x >> n` is division by 2^n. */
  lemma {:induction false} ShrIsDiv(x: nat, n: nat)
    ensures Shr(x, n) == x / Pow2(n)
    decreases n
  {
    if n > 0 {
      ShrIsDiv(x / 2, n - 1);
      HalveDiv(x, Pow2(n - 1));
    }
  }

  /** Bit `i + 1` of `x` is bit `i` of `x / 2`. */
  lemma BitOfHalf(x: nat)
    ensures forall i :: 0 < i ==> Bit(x, i) == Bit(x / 2, i - 1)
  {
  }

  lemma {:induction false} ShrShr(x: nat, a: nat, b: nat)
    ensures Shr(Shr(x, a), b) == Shr(x, a + b)
    ensures Bit(Shr(x, a), b) == Bit(x, a + b)
    decreases a
  {
    if a > 0 { ShrShr(x / 2, a - 1, b); }
  }

  /** A value below 2^n stays below 2^(n - k) after a shift by k. */
  lemma ShrBound(x: nat, k: nat, n: nat)
    requires k <= n
    requires x < Pow2(n)
    ensures Shr(x, k) < Pow2(n - k)
  {
    ShrIsDiv(x, k);
    Pow2Add(k, n - k);
    var d, q := Pow2(k), x / Pow2(k);
    assert x == d * q + x % d;
    if q >= Pow2(n - k) {
      MulLe(d, Pow2(n - k), q);
    }
  }

  /** Masking with `2^p - 1` keeps the value modulo 2^p. */
  lemma {:induction false} AndLowMask(x: nat, p: nat)
    ensures And(x, Pow2(p) - 1) == x % Pow2(p)
    decreases p
  {
    if p > 0 && x > 0 {
      AndLowMask(x / 2, p - 1);
      AndLowMaskStep(x, p);
    } else {
      AndLowMaskBase(x, p);
    }
  }

  lemma AndLowMaskBase(x: nat, p: nat)
    requires p == 0 || x == 0
    ensures And(x, Pow2(p) - 1) == x % Pow2(p)
  {
    if p == 0 {
      assert Pow2(p) - 1 == 0;
    }
  }

  lemma AndLowMaskStep(x: nat, p: nat)
    requires p > 0 && x > 0
    requires And(x / 2, Pow2(p - 1) - 1) == (x / 2) % Pow2(p - 1)
    ensures And(x, Pow2(p) - 1) == x % Pow2(p)
  {
    var q := Pow2(p - 1);
    var m := Pow2(p) - 1;
    assert Pow2(p) == 2 * q;
    DivUnique(m, 2, q - 1, 1);
    AndStep(x, m);
    HalveDiv(x, q);
  }

  lemma {:induction false} AndStep(a: nat, b: nat)
    requires a > 0 && b % 2 == 1
    ensures And(a, b) == 2 * And(a / 2, b / 2) + a % 2
  {
  }

  /** A set bit of a value below 2^n lies below position `n`. */
  lemma LowestSetBitBelow(x: nat, n: nat, i: nat)
    requires x < Pow2(n)
    requires Bit(x, i) == 1
    ensures i < n
  {
    if i >= n {
      ShrBound(x, n, n);
      ShrShr(x, n, i - n);
      ZeroShr(i - n);
    }
  }

  /** Transfers the trailing-zero facts of `x >> p` back to the bits of `x`. */
  lemma RunBitsOfHash(x: nat, p: nat, t: nat)
    requires Shr(x, p) != 0 ==>
               Bit(Shr(x, p), t) == 1 && forall i :: 0 <= i < t ==> Bit(Shr(x, p), i) == 0
    ensures Shr(x, p) != 0 ==>
              Bit(x, p + t) == 1 && forall i :: p <= i < p + t ==> Bit(x, i) == 0
  {
    ShrShr(x, p, t);
    forall i | p <= i < p + t ensures Bit(x, i) == Bit(Shr(x, p), i - p) {
      BitOfShr(x, p, i);
    }
  }

  lemma {:induction false} BitOfShr(x: nat, p: nat, i: nat)
    requires p <= i
    ensures Bit(x, i) == Bit(Shr(x, p), i - p)
  {
    ShrShr(x, p, i - p);
  }

  lemma {:induction false} ZeroShr(n: nat)
    ensures Shr(0, n) == 0
  {
    if n > 0 { ZeroShr(n - 1); }
  }
}
