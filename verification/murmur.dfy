/** The streaming MurmurHash3 (x86_32 variant) hasher of src/murmur.rs.

    The hasher keeps a running 32-bit state `h1`, a 4-byte buffer for the
    bytes of a block that is not complete yet, and the total number of bytes
    written.  Words are `bv32`, so multiplication, rotation, shifts and xor
    wrap around exactly as Rust's `wrapping_mul`, `rotate_left`,
    `wrapping_shr` and `^` on `u32` do.

    Besides the hasher itself the module holds an independent reference
    definition of MurmurHash3_x86_32 over a whole byte string, and proves
    that any way of splitting the input over `Write` calls gives that hash.
 */
module Murmur {
  import opened Ints

  const C1: bv32 := 0xcc9e2d51
  const C2: bv32 := 0x1b873593

  // ---------------------------------------------------------------------
  // Mixing steps shared by the hasher and the reference
  // ---------------------------------------------------------------------

  /** The per-block key scramble: `k1 *= C1; k1 = rotl(k1, 15); k1 *= C2`. */
  function ScrambleK1(k1: bv32): bv32
  {
    ((k1 * C1).RotateLeft(15)) * C2
  }

  /** One block step: xor the scrambled key into `h1`, rotate by 13, then
      `h1 * 5 + 0xe6546b64`. */
  function BlockStep(h1: bv32, k1: bv32): bv32
  {
    ((h1 ^ ScrambleK1(k1)).RotateLeft(13)) * 5 + 0xe6546b64
  }

  /** `u32::from_le_bytes` of four bytes. */
  function FromLeBytes(b: seq<bv8>): bv32
    requires |b| == 4
  {
    (b[0] as bv32) | ((b[1] as bv32) << 8) | ((b[2] as bv32) << 16) | ((b[3] as bv32) << 24)
  }

  /** The fmix32 avalanche finaliser. */
  function Fmix32(h: bv32): bv32
  {
    var h := h ^ (h >> 16);
    var h := h * 0x85ebca6b;
    var h := h ^ (h >> 13);
    var h := h * 0xc2b2ae35;
    h ^ (h >> 16)
  }

  /** The tail step: a non-empty tail's key is scrambled and xored into
      `h1`, with no rotation and no multiply-add. */
  function MixTail(h1: bv32, nonEmpty: bool, k1: bv32): bv32
  {
    if nonEmpty then h1 ^ ScrambleK1(k1) else h1
  }

  /** `h1` just before fmix32: the tail step, then the length xored in. */
  function Finalise(h1: bv32, nonEmpty: bool, k1: bv32, len: nat): bv32
  {
    MixTail(h1, nonEmpty, k1) ^ LenAsU32(len)
  }

  /** `len as u32`: truncation of the byte count to 32 bits. */
  function LenAsU32(len: nat): bv32
  {
    (len % TWO_TO_THE_32) as bv32
  }

  // ---------------------------------------------------------------------
  // Reference MurmurHash3_x86_32 of a whole byte string
  // ---------------------------------------------------------------------

  /** The reference's block loop: `h1` after mixing blocks `i .. n - 1` of
      `data` in order, block `i` being `data[4i .. 4i + 4]` read
      little-endian. */
  function Body(h1: bv32, data: seq<bv8>, i: nat, n: nat): bv32
    requires i <= n && 4 * n <= |data|
    decreases n - i
  {
    if i == n then h1 else Body(BlockStep(h1, Block(data, i)), data, i + 1, n)
  }

  /** Block `i` of `data`: bytes `4i .. 4i+4` read little-endian. */
  function Block(data: seq<bv8>, i: nat): bv32
    requires 4 * i + 4 <= |data|
  {
    FromLeBytes(data[4 * i .. 4 * i + 4])
  }

  /** The key of a 1-3 byte tail, built the way the reference's
      fall-through `switch (len & 3)` builds it. */
  function TailKey(tail: seq<bv8>): bv32
    requires |tail| < 4
  {
    var k2: bv32 := if |tail| == 3 then (tail[2] as bv32) << 16 else 0;
    var k1: bv32 := if |tail| >= 2 then k2 ^ ((tail[1] as bv32) << 8) else k2;
    if |tail| >= 1 then k1 ^ (tail[0] as bv32) else k1
  }

  /** MurmurHash3_x86_32(data, seed). */
  function Murmur3X86_32(seed: bv32, data: seq<bv8>): bv32
  {
    Fmix32(ReferenceBeforeFmix(seed, data))
  }

  /** The reference's `h1` just before fmix32: all blocks, the tail mixed
      without rotation, and the length xored in. */
  function ReferenceBeforeFmix(seed: bv32, data: seq<bv8>): bv32
  {
    var nblocks := |data| / 4;
    var h1 := Body(seed, data, 0, nblocks);
    var tail := data[4 * nblocks ..];
    Finalise(h1, |tail| > 0, TailKey(tail), |data|)
  }

  // ---------------------------------------------------------------------
  // The streaming hasher
  // ---------------------------------------------------------------------

  /** `Murmur3Hasher`: running hash, 4-byte tail buffer (bytes beyond
      `tailLen` are stale leftovers), number of bytes in the buffer, and
      total number of bytes written. */
  datatype Murmur3Hasher = Murmur3Hasher(h1: bv32, tail: seq<bv8>, tailLen: nat, len: nat)

  /** The shape every hasher keeps: a 4-byte buffer that is never full
      between calls. */
  predicate Valid(s: Murmur3Hasher)
  {
    |s.tail| == 4 && s.tailLen < 4
  }

  /** The bytes of the incomplete block still waiting in the buffer. */
  function Pending(s: Murmur3Hasher): seq<bv8>
    requires Valid(s)
  {
    s.tail[..s.tailLen]
  }

  /** `Murmur3Hasher::new(seed)`. */
  function NewHasher(seed: bv32): (r: Murmur3Hasher)
    ensures Valid(r) && Pending(r) == []
  {
    Murmur3Hasher(seed, [0, 0, 0, 0], 0, 0)
  }

  /** `Murmur3BuildHasher`: only the seed. */
  datatype Murmur3BuildHasher = Murmur3BuildHasher(seed: bv32)

  /** `BuildHasher::build_hasher`. */
  function BuildHasher(b: Murmur3BuildHasher): (r: Murmur3Hasher)
    ensures Valid(r)
  {
    NewHasher(b.seed)
  }

  /** First phase of `write`: top up a partly filled buffer and, when it
      becomes full, mix it as a block.  Returns the state after this phase
      and how many input bytes it consumed. */
  function FillTail(s: Murmur3Hasher, bytes: seq<bv8>): (r: (Murmur3Hasher, nat))
    requires Valid(s)
    ensures r.1 <= |bytes|
    ensures |r.0.tail| == 4 && r.0.tailLen < 4 && r.0.len == s.len
  {
    if s.tailLen == 0 then (s, 0)
    else
      var n := if 4 - s.tailLen < |bytes| then 4 - s.tailLen else |bytes|;
      var tail := s.tail[..s.tailLen] + bytes[..n] + s.tail[s.tailLen + n ..];
      var tailLen := s.tailLen + n;
      if tailLen == 4 then
        (Murmur3Hasher(BlockStep(s.h1, FromLeBytes(tail)), tail, 0, s.len), n)
      else
        (Murmur3Hasher(s.h1, tail, tailLen, s.len), n)
  }

  /** Second phase of `write`: the `while i + 4 <= bytes.len()` loop over
      whole blocks starting at index `i`.  Returns `h1` and the final `i`. */
  function BlockLoop(h1: bv32, bytes: seq<bv8>, i: nat): (r: (bv32, nat))
    requires i <= |bytes|
    ensures i <= r.1 <= |bytes| && |bytes| - r.1 < 4
    decreases |bytes| - i
  {
    if i + 4 <= |bytes| then BlockLoop(BlockStep(h1, FromLeBytes(bytes[i .. i + 4])), bytes, i + 4)
    else (h1, i)
  }

  /** `Hasher::write`. */
  function Write(s: Murmur3Hasher, bytes: seq<bv8>): (r: Murmur3Hasher)
    requires Valid(s)
    ensures Valid(r)
    ensures r.len == s.len + |bytes|
  {
    var filled := FillTail(s, bytes).0;
    var loop := BlockLoop(filled.h1, bytes, FillTail(s, bytes).1);
    var h1, i := loop.0, loop.1;
    var remaining := |bytes| - i;
    if remaining > 0 then
      Murmur3Hasher(h1, bytes[i..] + filled.tail[remaining..], remaining, s.len + |bytes|)
    else
      Murmur3Hasher(h1, filled.tail, filled.tailLen, s.len + |bytes|)
  }

  /** The `for i in 0..tail_len { k1 ^= (tail[i] as u32) << (8 * i) }`
      loop of `finish`, after its first `n` iterations. */
  function TailLoop(tail: seq<bv8>, n: nat): bv32
    requires n <= |tail| && n <= 4
  {
    if n == 0 then 0
    else TailLoop(tail, n - 1) ^ ShiftedByte(tail[n - 1], n - 1)
  }

  /** `(b as u32) << (8 * i)` for a byte position `i` of a word. */
  function ShiftedByte(b: bv8, i: nat): bv32
    requires i < 4
  {
    if i == 0 then b as bv32
    else if i == 1 then (b as bv32) << 8
    else if i == 2 then (b as bv32) << 16
    else (b as bv32) << 24
  }

  /** `Hasher::finish`: tail mix, length, fmix32, widened to u64. */
  function Finish(s: Murmur3Hasher): (r: U64)
    requires Valid(s)
    ensures r < TWO_TO_THE_32
  {
    WidenU32(FinalH1(s))
  }

  /** `final_h1` of `finish` before it is widened. */
  function FinalH1(s: Murmur3Hasher): bv32
    requires Valid(s)
  {
    Fmix32(BeforeFmix(s))
  }

  /** `final_h1` of `finish` just before the avalanche: the tail key mixed
      in when the buffer is not empty, then the length. */
  function BeforeFmix(s: Murmur3Hasher): bv32
    requires Valid(s)
  {
    Finalise(s.h1, s.tailLen > 0, TailLoop(s.tail, s.tailLen), s.len)
  }

  /** `x as u64` for a `u32` value. */
  function WidenU32(x: bv32): (r: U64)
    ensures r < TWO_TO_THE_32
  {
    x as nat
  }

  /** A sequence of `write` calls, in order. */
  function WriteAll(s: Murmur3Hasher, chunks: seq<seq<bv8>>): (r: Murmur3Hasher)
    requires Valid(s)
    ensures Valid(r)
    decreases |chunks|
  {
    if |chunks| == 0 then s else WriteAll(Write(s, chunks[0]), chunks[1..])
  }

  function Flatten(chunks: seq<seq<bv8>>): seq<bv8>
    decreases |chunks|
  {
    if |chunks| == 0 then [] else chunks[0] + Flatten(chunks[1..])
  }

  // ---------------------------------------------------------------------
  // Block-wise view: all whole blocks mixed, the rest pending
  // ---------------------------------------------------------------------

  /** `h1` after mixing every whole 4-byte block of `data` from the front. */
  function MixBlocks(h1: bv32, data: seq<bv8>): bv32
    decreases |data|
  {
    if |data| < 4 then h1 else MixBlocks(BlockStep(h1, FromLeBytes(data[..4])), data[4..])
  }

  /** The bytes after the last whole block of `data`. */
  function Rest(data: seq<bv8>): (r: seq<bv8>)
    ensures |r| < 4
    decreases |data|
  {
    if |data| < 4 then data else Rest(data[4..])
  }

  /** Everything `finish` depends on, and equal for equal inputs: the
      running hash, the live buffer bytes and the total length. */
  predicate SameLiveState(s: Murmur3Hasher, t: Murmur3Hasher)
    requires Valid(s) && Valid(t)
  {
    s.h1 == t.h1 && s.tailLen == t.tailLen && Pending(s) == Pending(t) && s.len == t.len
  }

  // ---------------------------------------------------------------------
  // Properties
  // ---------------------------------------------------------------------

  /** The main loop mixes the whole blocks of `bytes[i..]` and stops at the
      first byte of their rest. */
  lemma {:induction false} BlockLoopMixesBlocks(h1: bv32, bytes: seq<bv8>, i: nat)
    requires i <= |bytes|
    ensures BlockLoop(h1, bytes, i).0 == MixBlocks(h1, bytes[i..])
    ensures bytes[BlockLoop(h1, bytes, i).1 ..] == Rest(bytes[i..])
    decreases |bytes| - i
  {
    if i + 4 <= |bytes| {
      assert bytes[i..][..4] == bytes[i .. i + 4];
      assert bytes[i..][4..] == bytes[i + 4 ..];
      BlockLoopMixesBlocks(BlockStep(h1, FromLeBytes(bytes[i .. i + 4])), bytes, i + 4);
    }
  }

  /** `write` mixes exactly the whole blocks of the pending bytes followed
      by the new bytes, and keeps the rest pending.  A block completed
      through the buffer is mixed like a block of the main loop. */
  lemma WriteMixesBlocks(s: Murmur3Hasher, bytes: seq<bv8>)
    requires Valid(s)
    ensures Write(s, bytes).h1 == MixBlocks(s.h1, Pending(s) + bytes)
    ensures Pending(Write(s, bytes)) == Rest(Pending(s) + bytes)
    ensures Write(s, bytes).len == s.len + |bytes|
  {
    if s.tailLen == 0 {
      WriteFromEmptyBuffer(s, bytes);
    } else if s.tailLen + |bytes| < 4 {
      WriteWithinBuffer(s, bytes);
    } else {
      WriteCompletingBuffer(s, bytes);
    }
  }

  /** The last two phases of `write`: the main loop runs over what the
      first phase left, and the remainder goes to the buffer. */
  lemma WriteAfterFill(s: Murmur3Hasher, bytes: seq<bv8>)
    requires Valid(s)
    ensures Write(s, bytes).h1 == MixBlocks(FillTail(s, bytes).0.h1, bytes[FillTail(s, bytes).1 ..])
    ensures FillTail(s, bytes).0.tailLen == 0 ==>
              Pending(Write(s, bytes)) == Rest(bytes[FillTail(s, bytes).1 ..])
    ensures FillTail(s, bytes).0.tailLen > 0 ==>
              FillTail(s, bytes).1 == |bytes| && Pending(Write(s, bytes)) == Pending(FillTail(s, bytes).0)
  {
    BlockLoopMixesBlocks(FillTail(s, bytes).0.h1, bytes, FillTail(s, bytes).1);
  }

  /** The main loop of `write` mixes the whole blocks of what the first
      phase left over. */
  lemma MixesAfterFill(s: Murmur3Hasher, bytes: seq<bv8>)
    requires Valid(s)
    ensures Write(s, bytes).h1 == MixBlocks(FillTail(s, bytes).0.h1, bytes[FillTail(s, bytes).1 ..])
  {
    BlockLoopMixesBlocks(FillTail(s, bytes).0.h1, bytes, FillTail(s, bytes).1);
  }

  /** After a block completed through the buffer, the remainder of the input
      goes through the main loop as if the buffer had been empty. */
  lemma LeavesAfterFill(s: Murmur3Hasher, bytes: seq<bv8>)
    requires Valid(s)
    requires FillTail(s, bytes).0.tailLen == 0
    ensures Pending(Write(s, bytes)) == Rest(bytes[FillTail(s, bytes).1 ..])
  {
    BlockLoopMixesBlocks(FillTail(s, bytes).0.h1, bytes, FillTail(s, bytes).1);
  }

  lemma WriteFromEmptyBuffer(s: Murmur3Hasher, bytes: seq<bv8>)
    requires Valid(s) && s.tailLen == 0
    ensures Write(s, bytes).h1 == MixBlocks(s.h1, Pending(s) + bytes)
    ensures Pending(Write(s, bytes)) == Rest(Pending(s) + bytes)
  {
    WriteAfterFill(s, bytes);
    assert Pending(s) + bytes == bytes[0..];
  }

  lemma WriteWithinBuffer(s: Murmur3Hasher, bytes: seq<bv8>)
    requires Valid(s) && 0 < s.tailLen && s.tailLen + |bytes| < 4
    ensures Write(s, bytes).h1 == MixBlocks(s.h1, Pending(s) + bytes)
    ensures Pending(Write(s, bytes)) == Rest(Pending(s) + bytes)
  {
    WriteAfterFill(s, bytes);
    FillWithinBuffer(s, bytes);
    assert bytes[|bytes| ..] == [];
  }

  /** Bytes that do not complete the buffer are only appended to it. */
  lemma FillWithinBuffer(s: Murmur3Hasher, bytes: seq<bv8>)
    requires Valid(s) && 0 < s.tailLen && s.tailLen + |bytes| < 4
    ensures FillTail(s, bytes).0.h1 == s.h1
    ensures FillTail(s, bytes).1 == |bytes|
    ensures FillTail(s, bytes).0.tailLen == s.tailLen + |bytes|
    ensures Pending(FillTail(s, bytes).0) == Pending(s) + bytes
  {
    var n := |bytes|;
    var tail := s.tail[..s.tailLen] + bytes[..n] + s.tail[s.tailLen + n ..];
    assert bytes[..n] == bytes;
    assert tail[..s.tailLen + n] == Pending(s) + bytes;
  }

  lemma WriteCompletingBuffer(s: Murmur3Hasher, bytes: seq<bv8>)
    requires Valid(s) && 0 < s.tailLen && 4 <= s.tailLen + |bytes|
    ensures Write(s, bytes).h1 == MixBlocks(s.h1, Pending(s) + bytes)
    ensures Pending(Write(s, bytes)) == Rest(Pending(s) + bytes)
  {
    CompletingBufferMixes(s, bytes);
    CompletingBufferLeaves(s, bytes);
  }

  lemma CompletingBufferMixes(s: Murmur3Hasher, bytes: seq<bv8>)
    requires Valid(s) && 0 < s.tailLen && 4 <= s.tailLen + |bytes|
    ensures Write(s, bytes).h1 == MixBlocks(s.h1, Pending(s) + bytes)
  {
    CompletingBufferSplit(s, bytes);
    MixesAfterFill(s, bytes);
    FillTailCompletesBlock(s, bytes);
  }

  lemma CompletingBufferLeaves(s: Murmur3Hasher, bytes: seq<bv8>)
    requires Valid(s) && 0 < s.tailLen && 4 <= s.tailLen + |bytes|
    ensures Pending(Write(s, bytes)) == Rest(Pending(s) + bytes)
  {
    FillTailConsumes(s, bytes);
    assert FillTail(s, bytes).1 == 4 - |Pending(s)|;
    LeavesAfterFill(s, bytes);
    RestAfterFirstBlock(Pending(s), bytes);
  }

  /** The data after the block completed through the buffer is the rest of
      the input. */
  lemma CompletingBufferSplit(s: Murmur3Hasher, bytes: seq<bv8>)
    requires Valid(s) && 0 < s.tailLen && 4 <= s.tailLen + |bytes|
    ensures MixBlocks(s.h1, Pending(s) + bytes)
            == MixBlocks(BlockStep(s.h1, FromLeBytes((Pending(s) + bytes)[..4])), bytes[4 - s.tailLen ..])
  {
    SliceOfAppend(Pending(s), bytes, 4);
    MixBlocksFirst(s.h1, Pending(s) + bytes);
  }

  lemma RestAfterFirstBlock(p: seq<bv8>, bytes: seq<bv8>)
    requires |p| < 4 && 4 <= |p| + |bytes|
    ensures Rest(p + bytes) == Rest(bytes[4 - |p| ..])
  {
    SliceOfAppend(p, bytes, 4);
    MixBlocksFirst(0, p + bytes);
  }

  lemma MixBlocksFirst(h1: bv32, data: seq<bv8>)
    requires |data| >= 4
    ensures MixBlocks(h1, data) == MixBlocks(BlockStep(h1, FromLeBytes(data[..4])), data[4..])
    ensures Rest(data) == Rest(data[4..])
  {
  }

  lemma SliceOfAppend(a: seq<bv8>, b: seq<bv8>, k: nat)
    requires |a| <= k <= |a| + |b|
    ensures (a + b)[k..] == b[k - |a| ..]
  {
  }

  /** When the buffer is topped up to four bytes, the block it mixes is the
      first block of the pending bytes followed by the input. */
  lemma FillTailCompletesBlock(s: Murmur3Hasher, bytes: seq<bv8>)
    requires Valid(s)
    requires 0 < s.tailLen && 4 <= s.tailLen + |bytes|
    ensures FillTail(s, bytes).1 == 4 - s.tailLen
    ensures FillTail(s, bytes).0.h1 == BlockStep(s.h1, FromLeBytes((Pending(s) + bytes)[..4]))
  {
    var n := 4 - s.tailLen;
    var tail := s.tail[..s.tailLen] + bytes[..n] + s.tail[s.tailLen + n ..];
    assert tail == (Pending(s) + bytes)[..4];
  }
  /** Topping up the buffer takes exactly the bytes missing from its block. */
  lemma FillTailConsumes(s: Murmur3Hasher, bytes: seq<bv8>)
    requires Valid(s)
    requires 0 < s.tailLen && 4 <= s.tailLen + |bytes|
    ensures FillTail(s, bytes).1 == 4 - s.tailLen
    ensures FillTail(s, bytes).0.tailLen == 0
  {
  }


  /** Whole blocks mixed in two pieces are the whole blocks of the
      concatenation: the rest of the first piece joins the second. */
  lemma {:induction false} MixBlocksAppend(h1: bv32, x: seq<bv8>, y: seq<bv8>)
    ensures MixBlocks(MixBlocks(h1, x), Rest(x) + y) == MixBlocks(h1, x + y)
    ensures Rest(Rest(x) + y) == Rest(x + y)
    decreases |x|
  {
    if |x| >= 4 {
      assert (x + y)[..4] == x[..4];
      assert (x + y)[4..] == x[4..] + y;
      MixBlocksAppend(BlockStep(h1, FromLeBytes(x[..4])), x[4..], y);
    }
  }

  /** Chunking invariance: two `write` calls leave the same live state as
      one `write` of the concatenation. */
  lemma WriteConcat(s: Murmur3Hasher, a: seq<bv8>, b: seq<bv8>)
    requires Valid(s)
    ensures SameLiveState(Write(Write(s, a), b), Write(s, a + b))
  {
    var s1 := Write(s, a);
    WriteMixesBlocks(s, a);
    WriteMixesBlocks(s1, b);
    WriteMixesBlocks(s, a + b);
    MixBlocksConcat(s.h1, Pending(s), a, b);
  }

  /** The block-wise view of two writes: the bytes left over by the first
      join the second. */
  lemma MixBlocksConcat(h1: bv32, p: seq<bv8>, a: seq<bv8>, b: seq<bv8>)
    ensures MixBlocks(MixBlocks(h1, p + a), Rest(p + a) + b) == MixBlocks(h1, p + (a + b))
    ensures Rest(Rest(p + a) + b) == Rest(p + (a + b))
  {
    MixBlocksAppend(h1, p + a, b);
    assert p + a + b == p + (a + b);
  }

  /** `write` of an empty slice changes nothing at all. */
  lemma WriteEmpty(s: Murmur3Hasher)
    requires Valid(s)
    ensures Write(s, []) == s
  {
    assert s.tail[..s.tailLen] + [] + s.tail[s.tailLen..] == s.tail;
  }

  /** `finish` reads only the live state. */
  lemma FinishReadsLiveState(s: Murmur3Hasher, t: Murmur3Hasher)
    requires Valid(s) && Valid(t)
    requires SameLiveState(s, t)
    ensures Finish(s) == Finish(t)
  {
    TailLoopReadsPrefix(s.tail, t.tail, s.tailLen);
    assert BeforeFmix(s) == BeforeFmix(t);
  }

  lemma {:induction false} TailLoopReadsPrefix(a: seq<bv8>, b: seq<bv8>, n: nat)
    requires n <= |a| && n <= |b| && n <= 4
    requires a[..n] == b[..n]
    ensures TailLoop(a, n) == TailLoop(b, n)
  {
    if n > 0 {
      assert a[n - 1] == a[..n][n - 1] && b[n - 1] == b[..n][n - 1];
      assert a[..n - 1] == a[..n][..n - 1] && b[..n - 1] == b[..n][..n - 1];
      TailLoopReadsPrefix(a, b, n - 1);
    }
  }

  /** Chunking invariance of the final hash. */
  lemma FinishWriteConcat(s: Murmur3Hasher, a: seq<bv8>, b: seq<bv8>)
    requires Valid(s)
    ensures Finish(Write(Write(s, a), b)) == Finish(Write(s, a + b))
  {
    WriteConcat(s, a, b);
    FinishReadsLiveState(Write(Write(s, a), b), Write(s, a + b));
  }

  /** Any sequence of writes leaves the live state of one write of all the
      bytes. */
  lemma {:induction false} WriteAllFlatten(s: Murmur3Hasher, chunks: seq<seq<bv8>>)
    requires Valid(s)
    ensures SameLiveState(WriteAll(s, chunks), Write(s, Flatten(chunks)))
    decreases |chunks|
  {
    if |chunks| == 0 {
      WriteEmpty(s);
    } else {
      var s1 := Write(s, chunks[0]);
      WriteAllFlatten(s1, chunks[1..]);
      WriteConcat(s, chunks[0], Flatten(chunks[1..]));
      WriteMixesBlocks(s1, Flatten(chunks[1..]));
      WriteMixesBlocks(Write(s, chunks[0]), Flatten(chunks[1..]));
    }
  }

  /** Mixing all whole blocks from block `i` on agrees with the
      reference's block loop from index `i`. */
  lemma {:induction false} MixBlocksIsBody(h1: bv32, data: seq<bv8>, i: nat)
    requires 4 * i <= |data|
    ensures MixBlocks(h1, data[4 * i ..]) == Body(h1, data, i, |data| / 4)
    decreases |data| - 4 * i
  {
    if 4 * i + 4 <= |data| {
      MixBlocksSuffix(h1, data, i);
      MixBlocksIsBody(BlockStep(h1, Block(data, i)), data, i + 1);
    }
  }

  /** Mixing from block `j` on is mixing block `j`, then from block `j + 1` on. */
  lemma MixBlocksSuffix(h: bv32, data: seq<bv8>, j: nat)
    requires 4 * j + 4 <= |data|
    ensures MixBlocks(h, data[4 * j ..]) == MixBlocks(BlockStep(h, Block(data, j)), data[4 * j + 4 ..])
  {
    var d := data[4 * j ..];
    assert d[..4] == data[4 * j .. 4 * j + 4];
    assert d[4..] == data[4 * j + 4 ..];
    MixBlocksFirst(h, d);
  }

  lemma {:induction false} RestIsTail(data: seq<bv8>)
    ensures Rest(data) == data[4 * (|data| / 4) ..]
    decreases |data|
  {
    if |data| >= 4 {
      RestIsTail(data[4..]);
      assert data[4..][4 * (|data[4..]| / 4) ..] == data[4 * (|data| / 4) ..];
    }
  }

  /** The tail loop of `finish` builds the same key as the reference's
      fall-through switch. */
  lemma TailLoopIsTailKey(tail: seq<bv8>)
    requires |tail| < 4
    ensures TailLoop(tail, |tail|) == TailKey(tail)
  {
    if |tail| == 0 {
      TailKeyOfLength(tail, 0);
    } else if |tail| == 1 {
      TailKeyOfLength(tail, 1);
    } else if |tail| == 2 {
      TailKeyOfLength(tail, 2);
    } else {
      TailKeyOfLength(tail, 3);
    }
  }

  lemma TailKeyOfLength(tail: seq<bv8>, n: nat)
    requires |tail| == n < 4
    ensures TailLoop(tail, n) == TailKey(tail)
  {
    if n == 1 {
      TailLoopOne(tail);
    } else if n == 2 {
      TailLoopTwo(tail);
    } else if n == 3 {
      TailLoopTwo(tail);
      var a, b, c := tail[0] as bv32, tail[1] as bv32, tail[2] as bv32;
      assert TailLoop(tail, 3) == ((b << 8) ^ a) ^ (c << 16);
      assert TailKey(tail) == ((c << 16) ^ (b << 8)) ^ a;
      XorShuffle(a, b << 8, c << 16);
    }
  }

  lemma XorShuffle(a: bv32, b: bv32, c: bv32)
    ensures (b ^ a) ^ c == (c ^ b) ^ a
  {
  }

  lemma TailLoopOne(tail: seq<bv8>)
    requires 1 <= |tail| <= 4
    ensures TailLoop(tail, 1) == tail[0] as bv32
  {
  }

  lemma TailLoopTwo(tail: seq<bv8>)
    requires 2 <= |tail| <= 4
    ensures TailLoop(tail, 2) == ((tail[1] as bv32) << 8) ^ (tail[0] as bv32)
  {
    TailLoopOne(tail);
  }

  /** The whole blocks and the tail of `data`, as the reference indexes them. */
  lemma BlocksOfData(seed: bv32, data: seq<bv8>)
    ensures MixBlocks(seed, data) == Body(seed, data, 0, |data| / 4)
    ensures Rest(data) == data[4 * (|data| / 4) ..]
  {
    assert data[4 * 0 ..] == data;
    MixBlocksIsBody(seed, data, 0);
    RestIsTail(data);
  }

  /** A fresh hasher fed `data` holds the reference's `h1` after all blocks,
      the reference's tail, and the length. */
  lemma FreshWrite(seed: bv32, data: seq<bv8>)
    ensures Write(NewHasher(seed), data).h1 == Body(seed, data, 0, |data| / 4)
    ensures Pending(Write(NewHasher(seed), data)) == data[4 * (|data| / 4) ..]
    ensures Write(NewHasher(seed), data).len == |data|
  {
    WriteMixesBlocks(NewHasher(seed), data);
    assert Pending(NewHasher(seed)) + data == data;
    BlocksOfData(seed, data);
  }

  /** A hasher whose live state holds the reference's intermediate values
      for `data` is one step of fmix32 away from the reference hash. */
  lemma BeforeFmixMatchesReference(s: Murmur3Hasher, seed: bv32, data: seq<bv8>)
    requires Valid(s)
    requires s.h1 == Body(seed, data, 0, |data| / 4)
    requires Pending(s) == data[4 * (|data| / 4) ..]
    requires s.len == |data|
    ensures BeforeFmix(s) == ReferenceBeforeFmix(seed, data)
  {
    var tail := data[4 * (|data| / 4) ..];
    assert TailLoop(s.tail, s.tailLen) == TailKey(tail) by {
      TailLoopReadsPrefix(s.tail, Pending(s), s.tailLen);
      TailLoopIsTailKey(Pending(s));
    }
    assert s.tailLen > 0 <==> |tail| > 0;
  }

  /** A hasher fresh from `build_hasher` that has been fed `data` in one
      write returns MurmurHash3_x86_32(data, seed). */
  lemma FinishIsMurmur3(b: Murmur3BuildHasher, data: seq<bv8>)
    ensures Finish(Write(BuildHasher(b), data)) == Murmur3X86_32(b.seed, data) as nat
  {
    FreshWrite(b.seed, data);
    BeforeFmixMatchesReference(Write(BuildHasher(b), data), b.seed, data);
  }

  /** Whatever chunks `Hash::hash` splits a value into, the hash is
      MurmurHash3_x86_32 of their concatenation. */
  lemma WriteAllIsMurmur3(b: Murmur3BuildHasher, chunks: seq<seq<bv8>>)
    ensures Finish(WriteAll(BuildHasher(b), chunks)) == Murmur3X86_32(b.seed, Flatten(chunks)) as nat
  {
    WriteAllFlatten(BuildHasher(b), chunks);
    FinishReadsLiveState(WriteAll(BuildHasher(b), chunks), Write(BuildHasher(b), Flatten(chunks)));
    FinishIsMurmur3(b, Flatten(chunks));
  }

  /** The hash of the empty input is the avalanche of the seed alone. */
  lemma EmptyInput(seed: bv32)
    ensures Murmur3X86_32(seed, []) == Fmix32(seed)
  {
    assert ReferenceBeforeFmix(seed, []) == seed;
  }

  /** Published test vectors of MurmurHash3_x86_32 for the empty input. */
  lemma EmptyInputVectors()
    ensures Murmur3X86_32(0, []) == 0
    ensures Murmur3X86_32(1, []) == 0x514e28b7
    ensures Murmur3X86_32(0xffffffff, []) == 0x81f16f39
  {
    EmptyInput(0);
    EmptyInput(1);
    EmptyInput(0xffffffff);
  }

  /** Published test vector: "hello" with seed 0. */
  lemma HelloVector()
    ensures Murmur3X86_32(0, [0x68, 0x65, 0x6c, 0x6c, 0x6f]) == 0x248bfa47
  {
    var data: seq<bv8> := [0x68, 0x65, 0x6c, 0x6c, 0x6f];
    assert data[0..4] == [0x68, 0x65, 0x6c, 0x6c];
    assert FromLeBytes(data[0..4]) == 0x6c6c6568;
    var h := Body(0, data, 0, 1);
    assert h == BlockStep(0, 0x6c6c6568);
    assert data[4..] == [0x6f];
    assert TailKey([0x6f]) == 0x6f;
    assert ReferenceBeforeFmix(0, data) == Finalise(h, true, 0x6f, 5);
  }

  /** Published test vectors with seed 0x9747b28c: "aaa" exercises a
      three-byte tail, "aaaa" a single whole block. */
  lemma SeededVectors()
    ensures Murmur3X86_32(0x9747b28c, [0x61, 0x61, 0x61]) == 0x283e0130
    ensures Murmur3X86_32(0x9747b28c, [0x61, 0x61, 0x61, 0x61]) == 0x5a97808a
  {
    var three: seq<bv8> := [0x61, 0x61, 0x61];
    assert three[0..] == three;
    assert TailKey(three) == 0x616161;
    assert ReferenceBeforeFmix(0x9747b28c, three) == Finalise(0x9747b28c, true, 0x616161, 3);
    var four: seq<bv8> := [0x61, 0x61, 0x61, 0x61];
    assert four[0..4] == four;
    assert FromLeBytes(four) == 0x61616161;
    assert four[4..] == [];
    var h := Body(0x9747b28c, four, 0, 1);
    assert h == BlockStep(0x9747b28c, 0x61616161);
    assert ReferenceBeforeFmix(0x9747b28c, four) == Finalise(h, false, TailKey([]), 4);
  }
  /** Published test vector with three whole blocks and a one-byte tail:
      "Hello, world!" with seed 0x9747b28c. */
  lemma HelloWorldVector()
    ensures Murmur3X86_32(0x9747b28c, [0x48, 0x65, 0x6c, 0x6c, 0x6f, 0x2c, 0x20, 0x77, 0x6f, 0x72, 0x6c, 0x64, 0x21]) == 0x24884cba
  {
    var data: seq<bv8> := [0x48, 0x65, 0x6c, 0x6c, 0x6f, 0x2c, 0x20, 0x77, 0x6f, 0x72, 0x6c, 0x64, 0x21];
    assert data[0..4] == [0x48, 0x65, 0x6c, 0x6c];
    assert data[4..8] == [0x6f, 0x2c, 0x20, 0x77];
    assert data[8..12] == [0x6f, 0x72, 0x6c, 0x64];
    assert Block(data, 0) == 0x6c6c6548;
    assert Block(data, 1) == 0x77202c6f;
    assert Block(data, 2) == 0x646c726f;
    var h := BlockStep(BlockStep(BlockStep(0x9747b28c, 0x6c6c6548), 0x77202c6f), 0x646c726f);
    assert Body(0x9747b28c, data, 0, 3) == h;
    assert data[12..] == [0x21];
    assert TailKey([0x21]) == 0x21;
    assert ReferenceBeforeFmix(0x9747b28c, data) == Finalise(h, true, 0x21, 13);
  }
}
