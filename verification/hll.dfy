/** The estimator state and its discrete operations (src/lib.rs).

    An estimator holds its hash builder, a precision `p` clamped to 4..20,
    and `2^p` one-byte registers.  `add` is modelled on the 64-bit hash of
    the value: the hash builder is a type parameter, and the
    Murmur3-backed estimator additionally gets `AddBytes`, which hashes the
    byte chunks a value's `Hash` implementation writes.
 */
module Hll {
  import opened Ints
  import opened Bits
  import Murmur

  const DEFAULT_PRECISION: U8 := 14
  const MIN_PRECISION: U8 := 4
  const MAX_PRECISION: U8 := 20

  /** `Hypeerlog<S>`. */
  datatype Hypeerlog<S> = Hypeerlog(hasher: S, precision: U8, registers: seq<U8>)

  /** What every constructor establishes and `add` keeps: the precision is
      in range and there is one register per bucket, so an estimator holds
      between 16 and 2^20 registers. */
  predicate Invariant<S>(h: Hypeerlog<S>)
    ensures Invariant(h) ==> 16 <= |h.registers| <= 0x10_0000
  {
    if MIN_PRECISION <= h.precision <= MAX_PRECISION then
      RegisterCountBounds(h.precision);
      |h.registers| == PowTwo(h.precision)
    else
      false
  }

  /** `2^p` for a precision in range lies between 16 and 2^20. */
  lemma RegisterCountBounds(p: U8)
    requires MIN_PRECISION <= p <= MAX_PRECISION
    ensures 16 <= Pow2(p) <= 0x10_0000
  {
    assert Pow2(4) == 16;
    Pow2Monotone(4, p);
    Pow2Monotone(p, 20);
    Pow2Of16();
    Pow2Add(16, 4);
  }

  /** Number of registers, `m = 2^p`. */
  function RegisterCount<S>(h: Hypeerlog<S>): nat
    requires Invariant(h)
  {
    PowTwo(h.precision)
  }

  predicate AllZero(regs: seq<U8>)
  {
    forall i :: 0 <= i < |regs| ==> regs[i] == 0
  }

  function Max(a: U8, b: U8): U8
  {
    if a < b then b else a
  }

  // ---------------------------------------------------------------------
  // Constructors
  // ---------------------------------------------------------------------

  /** `u8::clamp(lo, hi)`. */
  function Clamp(p: U8, lo: U8, hi: U8): (r: U8)
    requires lo <= hi
    ensures lo <= r <= hi
    ensures lo <= p <= hi ==> r == p
    ensures p < lo ==> r == lo
    ensures hi < p ==> r == hi
  {
    if p < lo then lo else if hi < p then hi else p
  }

  /** `vec![0; pow_two(p) as usize]`. */
  function ZeroRegisters(p: U8): (r: seq<U8>)
    requires p <= 31
    ensures |r| == Pow2(p)
    ensures AllZero(r)
  {
    seq(PowTwo(p), _ => 0)
  }

  /** `Hypeerlog::with_hasher`: the default precision, whatever the builder. */
  function WithHasher<S>(hasherBuilder: S): (r: Hypeerlog<S>)
    ensures Invariant(r)
    ensures r.hasher == hasherBuilder && r.precision == 14
    ensures |r.registers| == 16384 && AllZero(r.registers)
  {
    Pow2Values();
    Hypeerlog(hasherBuilder, DEFAULT_PRECISION, ZeroRegisters(DEFAULT_PRECISION))
  }

  /** `Hypeerlog::with_hasher_percision`: the precision is clamped to 4..20. */
  function WithHasherPercision<S>(percision: U8, hasherBuilder: S): (r: Hypeerlog<S>)
    ensures Invariant(r)
    ensures r.hasher == hasherBuilder
    ensures r.precision == Clamp(percision, 4, 20)
    ensures 4 <= percision <= 20 ==> r.precision == percision
    ensures |r.registers| == Pow2(r.precision) && AllZero(r.registers)
  {
    var p := Clamp(percision, MIN_PRECISION, MAX_PRECISION);
    Hypeerlog(hasherBuilder, p, ZeroRegisters(p))
  }

  /** `Hypeerlog::new`: Murmur3 with seed 0 and the default precision. */
  function New(): (r: Hypeerlog<Murmur.Murmur3BuildHasher>)
    ensures Invariant(r)
    ensures r.hasher.seed == 0 && r.precision == 14
    ensures |r.registers| == 16384 && AllZero(r.registers)
  {
    Pow2Values();
    Hypeerlog(Murmur.Murmur3BuildHasher(0), DEFAULT_PRECISION, ZeroRegisters(DEFAULT_PRECISION))
  }

  /** `Hypeerlog::with_percision`: Murmur3 with seed 0, precision clamped to 4..20. */
  function WithPercision(percision: U8): (r: Hypeerlog<Murmur.Murmur3BuildHasher>)
    ensures Invariant(r)
    ensures r.hasher.seed == 0
    ensures r.precision == Clamp(percision, 4, 20)
    ensures 4 <= percision <= 20 ==> r.precision == percision
    ensures |r.registers| == Pow2(r.precision) && AllZero(r.registers)
  {
    var p := Clamp(percision, MIN_PRECISION, MAX_PRECISION);
    Hypeerlog(Murmur.Murmur3BuildHasher(0), p, ZeroRegisters(p))
  }

  // ---------------------------------------------------------------------
  // Insertion
  // ---------------------------------------------------------------------

  /** The register `add` updates for a hash: always a valid index. */
  function BucketOf<S>(h: Hypeerlog<S>, hash: U64): (b: nat)
    requires Invariant(h)
    ensures b < |h.registers|
  {
    GetBucket(h.precision, hash)
  }

  /** `Hypeerlog::add` given the 64-bit hash of the value. */
  function Add<S>(h: Hypeerlog<S>, hash: U64): (r: Hypeerlog<S>)
    requires Invariant(h)
    ensures Invariant(r)
    ensures r.hasher == h.hasher && r.precision == h.precision
    ensures |r.registers| == |h.registers|
    ensures forall i :: 0 <= i < |h.registers| ==> h.registers[i] <= r.registers[i]
    ensures r.registers[BucketOf(h, hash)] == Max(h.registers[BucketOf(h, hash)], LongestRun(h.precision, hash))
    ensures forall i :: 0 <= i < |h.registers| && i != BucketOf(h, hash) ==> r.registers[i] == h.registers[i]
  {
    var idx := GetBucket(h.precision, hash);
    h.(registers := h.registers[idx := Max(LongestRun(h.precision, hash), h.registers[idx])])
  }

  /** `Hypeerlog::batch_add`: `add` of each hash, in order. */
  function BatchAdd<S>(h: Hypeerlog<S>, hashes: seq<U64>): (r: Hypeerlog<S>)
    requires Invariant(h)
    ensures Invariant(r)
    ensures r.hasher == h.hasher && r.precision == h.precision
    decreases |hashes|
  {
    if |hashes| == 0 then h else BatchAdd(Add(h, hashes[0]), hashes[1..])
  }

  /** `Hypeerlog::add` on the Murmur3-backed estimator: a fresh hasher from
      the builder receives the chunks the value's `Hash` implementation
      writes, and `finish` gives the hash. */
  function AddBytes(h: Hypeerlog<Murmur.Murmur3BuildHasher>, chunks: seq<seq<bv8>>): (r: Hypeerlog<Murmur.Murmur3BuildHasher>)
    requires Invariant(h)
    ensures Invariant(r)
  {
    Add(h, Murmur.Finish(Murmur.WriteAll(Murmur.BuildHasher(h.hasher), chunks)))
  }

  // ---------------------------------------------------------------------
  // The discrete part of `estimate_card`
  // ---------------------------------------------------------------------

  /** `registers.iter().filter(|&&val| val == 0).count()`. */
  function CountZeros(regs: seq<U8>): (n: nat)
    ensures n <= |regs|
    ensures n == multiset(regs)[0]
    ensures n == |regs| <==> AllZero(regs)
  {
    if |regs| == 0 then 0
    else
      assert regs == [regs[0]] + regs[1..];
      (if regs[0] == 0 then 1 else 0) + CountZeros(regs[1..])
  }

  /** The bias-correction constant `get_alpha_m_bias` chooses:
      0.673, 0.697, 0.709, or 0.7213 / (1 + 1.079 / m). */
  datatype AlphaChoice = Alpha673 | Alpha697 | Alpha709 | AlphaFormula

  /** The choice as the source makes it: it compares `m` with 4, 5 and 6,
      so every register count from 16 up gets the general formula. */
  function AlphaChoiceAsWritten(m: nat): (a: AlphaChoice)
    ensures a == AlphaFormula <==> m < 4 || 6 < m
    ensures 16 <= m ==> a == AlphaFormula
  {
    if m == 4 then Alpha673 else if m == 5 then Alpha697 else if m == 6 then Alpha709 else AlphaFormula
  }

  /** The choice of the HyperLogLog algorithm: the tabulated constants
      belong to 16, 32 and 64 registers. */
  function AlphaChoiceCorrected(m: nat): AlphaChoice
  {
    if m == 16 then Alpha673 else if m == 32 then Alpha697 else if m == 64 then Alpha709 else AlphaFormula
  }

  /** Which way `estimate_card` goes: exactly 0 when every register is
      zero, otherwise the floating-point formula with the given zero-register
      count and bias constant. */
  datatype Estimate = ExactlyZero | Formula(zeroRegisters: nat, alpha: AlphaChoice)

  /** `Hypeerlog::estimate_card` as written, down to the choice of branch:
      since `m >= 16`, the formula branch always uses the general bias
      constant. */
  function EstimateCard<S>(h: Hypeerlog<S>): (e: Estimate)
    requires Invariant(h)
    ensures e == ExactlyZero <==> AllZero(h.registers)
    ensures e.Formula? ==> e.zeroRegisters < RegisterCount(h)
    ensures e.Formula? ==> e.zeroRegisters == multiset(h.registers)[0]
    ensures e.Formula? ==> e.alpha == AlphaChoiceAsWritten(RegisterCount(h))
    ensures e.Formula? ==> e.alpha == AlphaFormula
  {
    var m := PowTwo(h.precision);
    var zeros := CountZeros(h.registers);
    AlphaAsWrittenNeverTabulated(h.precision);
    if zeros == m then ExactlyZero else Formula(zeros, AlphaChoiceAsWritten(m))
  }

  /** `estimate_card` with the bias constant chosen for 16, 32 and 64
      registers: precisions 4, 5 and 6 get their tabulated constants. */
  function EstimateCardCorrected<S>(h: Hypeerlog<S>): (e: Estimate)
    requires Invariant(h)
    ensures e == ExactlyZero <==> AllZero(h.registers)
    ensures e.Formula? ==> e.zeroRegisters == multiset(h.registers)[0]
    ensures e.Formula? ==> e.alpha == (if h.precision == 4 then Alpha673 else if h.precision == 5 then Alpha697
                                       else if h.precision == 6 then Alpha709 else AlphaFormula)
  {
    var m := PowTwo(h.precision);
    var zeros := CountZeros(h.registers);
    AlphaCorrectedTabulated(h.precision);
    if zeros == m then ExactlyZero else Formula(zeros, AlphaChoiceCorrected(m))
  }

  /** The two estimates take the same branch with the same zero count, and
      their bias constants agree exactly from precision 7 up. */
  lemma EstimateCardCorrectedAgrees<S>(h: Hypeerlog<S>)
    requires Invariant(h)
    ensures EstimateCardCorrected(h).Formula? <==> EstimateCard(h).Formula?
    ensures EstimateCard(h).Formula? ==>
              EstimateCardCorrected(h).zeroRegisters == EstimateCard(h).zeroRegisters &&
              (EstimateCardCorrected(h).alpha == EstimateCard(h).alpha <==> h.precision >= 7)
  {
  }

  // ---------------------------------------------------------------------
  // Properties of insertion
  // ---------------------------------------------------------------------

  /** Adding a hash twice is adding it once. */
  lemma AddIdempotent<S>(h: Hypeerlog<S>, hash: U64)
    requires Invariant(h)
    ensures Add(Add(h, hash), hash) == Add(h, hash)
  {
    var r := Add(h, hash);
    assert Add(r, hash).registers == r.registers;
  }

  /** Two adds commute. */
  lemma AddCommutes<S>(h: Hypeerlog<S>, a: U64, b: U64)
    requires Invariant(h)
    ensures Add(Add(h, a), b) == Add(Add(h, b), a)
  {
    var ab, ba := Add(Add(h, a), b), Add(Add(h, b), a);
    assert ab.registers == ba.registers;
  }

  /** One step of `batch_add`'s loop. */
  lemma BatchAddCons<S>(h: Hypeerlog<S>, x: U64, xs: seq<U64>)
    requires Invariant(h)
    ensures BatchAdd(h, [x] + xs) == BatchAdd(Add(h, x), xs)
  {
    assert ([x] + xs)[0] == x;
    assert ([x] + xs)[1..] == xs;
  }

  /** Pulling one hash to the front of a batch does not change the result. */
  lemma {:induction false} BatchAddMoveToFront<S>(h: Hypeerlog<S>, s1: seq<U64>, x: U64, s2: seq<U64>)
    requires Invariant(h)
    ensures BatchAdd(h, s1 + [x] + s2) == BatchAdd(Add(h, x), s1 + s2)
    decreases |s1|
  {
    if |s1| == 0 {
      assert s1 + [x] + s2 == [x] + s2;
      assert s1 + s2 == s2;
      BatchAddCons(h, x, s2);
    } else {
      var a, t := s1[0], s1[1..];
      assert s1 + [x] + s2 == [a] + (t + [x] + s2);
      assert s1 + s2 == [a] + (t + s2);
      BatchAddCons(h, a, t + [x] + s2);
      BatchAddMoveToFront(Add(h, a), t, x, s2);
      AddCommutes(h, a, x);
      BatchAddCons(Add(h, x), a, t + s2);
    }
  }

  /** The final state of a batch does not depend on the order of the hashes. */
  lemma {:induction false} BatchAddPermutation<S>(h: Hypeerlog<S>, xs: seq<U64>, ys: seq<U64>)
    requires Invariant(h)
    requires multiset(xs) == multiset(ys)
    ensures BatchAdd(h, xs) == BatchAdd(h, ys)
    decreases |xs|
  {
    if |xs| == 0 {
      assert |ys| == |multiset(ys)| == 0;
    } else {
      var x, rest := xs[0], xs[1..];
      assert x in multiset(ys);
      var i :| 0 <= i < |ys| && ys[i] == x;
      var pre, post := ys[..i], ys[i + 1 ..];
      assert ys == pre + [x] + post;
      assert xs == [x] + rest;
      assert multiset(rest) == multiset(pre + post) by {
        calc {
          multiset([x]) + multiset(rest);
          multiset([x] + rest);
          multiset(xs);
          multiset(ys);
          multiset(pre + [x] + post);
          multiset(pre + [x]) + multiset(post);
          multiset(pre) + multiset([x]) + multiset(post);
          multiset([x]) + multiset(pre + post);
        }
        assert multiset(rest) == (multiset([x]) + multiset(rest)) - multiset([x]);
        assert multiset(pre + post) == (multiset([x]) + multiset(pre + post)) - multiset([x]);
      }
      BatchAddMoveToFront(h, pre, x, post);
      BatchAddCons(h, x, rest);
      BatchAddPermutation(Add(h, x), rest, pre + post);
    }
  }

  /** A batch is its two halves one after the other. */
  lemma {:induction false} BatchAddAppend<S>(h: Hypeerlog<S>, xs: seq<U64>, ys: seq<U64>)
    requires Invariant(h)
    ensures BatchAdd(h, xs + ys) == BatchAdd(BatchAdd(h, xs), ys)
    decreases |xs|
  {
    if |xs| > 0 {
      assert (xs + ys)[1..] == xs[1..] + ys;
      BatchAddAppend(Add(h, xs[0]), xs[1..], ys);
    } else {
      assert xs + ys == ys;
    }
  }

  /** Order-independent description of a batch: each register ends at the
      maximum of its old value and the run lengths of the hashes that map
      to it. */
  lemma {:induction false} BatchAddRegisters<S>(h: Hypeerlog<S>, xs: seq<U64>)
    requires Invariant(h)
    ensures |BatchAdd(h, xs).registers| == |h.registers|
    ensures forall i :: 0 <= i < |h.registers| ==> h.registers[i] <= BatchAdd(h, xs).registers[i]
    ensures forall x :: x in xs ==>
              LongestRun(h.precision, x) <= BatchAdd(h, xs).registers[BucketOf(h, x)]
    ensures forall i :: 0 <= i < |h.registers| ==>
              BatchAdd(h, xs).registers[i] == h.registers[i] ||
              exists x :: x in xs && BucketOf(h, x) == i && BatchAdd(h, xs).registers[i] == LongestRun(h.precision, x)
    decreases |xs|
  {
    if |xs| > 0 {
      var h1 := Add(h, xs[0]);
      BatchAddRegisters(h1, xs[1..]);
      var r := BatchAdd(h, xs);
      assert r == BatchAdd(h1, xs[1..]);
      forall x | x in xs
        ensures LongestRun(h.precision, x) <= r.registers[BucketOf(h, x)]
      {
        if x != xs[0] {
          assert x in xs[1..];
        }
      }
      forall i | 0 <= i < |h.registers|
        ensures r.registers[i] == h.registers[i] ||
                exists x :: x in xs && BucketOf(h, x) == i && r.registers[i] == LongestRun(h.precision, x)
      {
        if r.registers[i] != h.registers[i] {
          if r.registers[i] == h1.registers[i] {
            assert xs[0] in xs && BucketOf(h, xs[0]) == i;
          } else {
            var x :| x in xs[1..] && BucketOf(h1, x) == i && r.registers[i] == LongestRun(h.precision, x);
            assert x in xs;
          }
        }
      }
    }
  }

  /** Adding the same hash any positive number of times is adding it once. */
  lemma {:induction false} BatchAddRepeated<S>(h: Hypeerlog<S>, hash: U64, n: nat)
    requires Invariant(h)
    requires n >= 1
    ensures BatchAdd(h, seq(n, _ => hash)) == Add(h, hash)
    decreases n
  {
    var xs := seq(n, _ => hash);
    assert xs[1..] == seq(n - 1, _ => hash);
    if n == 1 {
      assert BatchAdd(h, xs) == BatchAdd(Add(h, hash), []);
    } else {
      BatchAddRepeated(Add(h, hash), hash, n - 1);
      AddIdempotent(h, hash);
    }
  }

  // ---------------------------------------------------------------------
  // Properties of the estimate
  // ---------------------------------------------------------------------

  /** A freshly built estimator estimates exactly zero. */
  lemma FreshEstimateIsZero<S>(p: U8, b: S)
    ensures EstimateCard(WithHasherPercision(p, b)) == ExactlyZero
    ensures EstimateCard(WithHasher(b)) == ExactlyZero
    ensures EstimateCard(WithPercision(p)) == ExactlyZero
    ensures EstimateCard(New()) == ExactlyZero
  {
  }

  /** After an add the all-zero branch is never taken, because every run
      length is at least 1. */
  lemma EstimateAfterAdd<S>(h: Hypeerlog<S>, hash: U64)
    requires Invariant(h)
    ensures EstimateCard(Add(h, hash)).Formula?
  {
    var r := Add(h, hash);
    assert r.registers[BucketOf(h, hash)] != 0;
  }

  /** The same for a non-empty batch. */
  lemma EstimateAfterBatch<S>(h: Hypeerlog<S>, hashes: seq<U64>)
    requires Invariant(h)
    requires |hashes| > 0
    ensures EstimateCard(BatchAdd(h, hashes)).Formula?
  {
    BatchAddRegisters(h, hashes);
    var r := BatchAdd(h, hashes);
    assert hashes[0] in hashes;
    assert r.registers[BucketOf(h, hashes[0])] != 0;
  }

  // ---------------------------------------------------------------------
  // The Murmur3-backed estimator
  // ---------------------------------------------------------------------

  /** The hash `add` uses depends only on the concatenation of the written
      chunks, and is MurmurHash3_x86_32 of it. */
  lemma AddBytesIsMurmur3(h: Hypeerlog<Murmur.Murmur3BuildHasher>, chunks: seq<seq<bv8>>)
    requires Invariant(h)
    ensures AddBytes(h, chunks) == Add(h, ValueHash(h.hasher.seed, chunks))
  {
    Murmur.WriteAllIsMurmur3(h.hasher, chunks);
  }

  /** `batch_add` on the Murmur3-backed estimator; each value is given as
      the chunks its `Hash` implementation writes. */
  function BatchAddBytes(h: Hypeerlog<Murmur.Murmur3BuildHasher>, values: seq<seq<seq<bv8>>>): (r: Hypeerlog<Murmur.Murmur3BuildHasher>)
    requires Invariant(h)
    ensures Invariant(r)
    ensures r.hasher == h.hasher && r.precision == h.precision
    decreases |values|
  {
    if |values| == 0 then h else BatchAddBytes(AddBytes(h, values[0]), values[1..])
  }

  /** The hash `add` computes for a value written as `chunks`. */
  function ValueHash(seed: bv32, chunks: seq<seq<bv8>>): U64
  {
    Murmur.Murmur3X86_32(seed, Murmur.Flatten(chunks)) as nat
  }

  /** The Murmur3 hash of each value, in order. */
  function HashesOf(seed: bv32, values: seq<seq<seq<bv8>>>): (r: seq<U64>)
    ensures |r| == |values|
    ensures forall i :: 0 <= i < |values| ==> r[i] == ValueHash(seed, values[i])
    decreases |values|
  {
    if |values| == 0 then [] else [ValueHash(seed, values[0])] + HashesOf(seed, values[1..])
  }

  /** A byte-level batch is the hash-level batch of the values' Murmur3
      hashes, so every property of `BatchAdd` carries over. */
  lemma {:induction false} BatchAddBytesIsBatchAdd(h: Hypeerlog<Murmur.Murmur3BuildHasher>, values: seq<seq<seq<bv8>>>)
    requires Invariant(h)
    ensures BatchAddBytes(h, values) == BatchAdd(h, HashesOf(h.hasher.seed, values))
    decreases |values|
  {
    if |values| > 0 {
      var seed := h.hasher.seed;
      AddBytesIsMurmur3(h, values[0]);
      var h1 := AddBytes(h, values[0]);
      BatchAddBytesIsBatchAdd(h1, values[1..]);
      BatchAddCons(h, ValueHash(seed, values[0]), HashesOf(seed, values[1..]));
    }
  }

  /** Registers fed by 32-bit hashes: each holds 0..32-p or exactly 65. */
  predicate RegistersFromU32Hashes<S>(h: Hypeerlog<S>)
  {
    h.precision <= 31 &&
    forall i :: 0 <= i < |h.registers| ==> h.registers[i] <= 32 - h.precision || h.registers[i] == 65
  }

  /** Murmur3 hashes are below 2^32, so a Murmur3-backed estimator only ever
      stores run lengths up to `32 - p`, or 65 when the bits above `p` are
      all zero. */
  lemma AddBytesKeepsU32Registers(h: Hypeerlog<Murmur.Murmur3BuildHasher>, chunks: seq<seq<bv8>>)
    requires Invariant(h)
    requires RegistersFromU32Hashes(h)
    ensures RegistersFromU32Hashes(AddBytes(h, chunks))
  {
    var hash := Murmur.Finish(Murmur.WriteAll(Murmur.BuildHasher(h.hasher), chunks));
    LongestRunOfU32Hash(h.precision, hash);
  }

  /** Every constructor starts out with registers fed by 32-bit hashes. */
  lemma FreshRegistersFromU32Hashes<S>(p: U8, b: S)
    ensures RegistersFromU32Hashes(WithHasherPercision(p, b))
    ensures RegistersFromU32Hashes(WithHasher(b))
    ensures RegistersFromU32Hashes(WithPercision(p))
    ensures RegistersFromU32Hashes(New())
  {
  }

  /** `batch_add` on the Murmur3-backed estimator keeps registers fed by
      32-bit hashes. */
  lemma {:induction false} BatchAddBytesKeepsU32Registers(h: Hypeerlog<Murmur.Murmur3BuildHasher>, values: seq<seq<seq<bv8>>>)
    requires Invariant(h)
    requires RegistersFromU32Hashes(h)
    ensures RegistersFromU32Hashes(BatchAddBytes(h, values))
    decreases |values|
  {
    if |values| > 0 {
      AddBytesKeepsU32Registers(h, values[0]);
      BatchAddBytesKeepsU32Registers(AddBytes(h, values[0]), values[1..]);
    }
  }

  /** As written, no precision the constructors allow reaches a tabulated
      bias constant. */
  lemma AlphaAsWrittenNeverTabulated(p: U8)
    requires MIN_PRECISION <= p <= MAX_PRECISION
    ensures AlphaChoiceAsWritten(PowTwo(p)) == AlphaFormula
  {
    Pow2Monotone(4, p);
  }

  /** With the corrected comparison, precisions 4, 5 and 6 get their
      tabulated constants and every other precision the formula. */
  lemma AlphaCorrectedTabulated(p: U8)
    requires MIN_PRECISION <= p <= MAX_PRECISION
    ensures AlphaChoiceCorrected(PowTwo(p)) ==
              if p == 4 then Alpha673 else if p == 5 then Alpha697 else if p == 6 then Alpha709 else AlphaFormula
  {
    if p >= 7 {
      Pow2Monotone(7, p);
    }
  }

  /** The input that shows the discrepancy: 16 registers. */
  lemma AlphaDiscrepancyAtPrecision4()
    ensures AlphaChoiceAsWritten(PowTwo(4)) != AlphaChoiceCorrected(PowTwo(4))
  {
    AlphaAsWrittenNeverTabulated(4);
    AlphaCorrectedTabulated(4);
  }
}
