/**
 * How HyperLogLog.java turns one 64-bit hash into a register index and a rank.
 *
 * The hash is a Java `long`; it is modelled by its 64 raw bits (`bv64`), so
 * `>>>` (unsigned shift) is Dafny's `>>` on `bv64`, and reading the hash
 * "unsigned" is unsigned bit-vector division and remainder.
 *
 * The 50-bit mask `0x3_FFFF_FFFF_FFFF` (Java's `1125899906842623L`) is
 * written out wherever it is used rather than named: a named bit-vector
 * constant inside contracts makes the solver much slower.
 */
module HashSplit {

  /** A 64-bit hash as produced by the (unmodelled) hash function. */
  type Hash = bv64

  /** Java's `byte`: the element type of the register array. */
  type JByte = x: int | -128 <= x < 128

  /** Precision `p`: bits of the hash that select the register. */
  const Precision: nat := 14
  /** Number of registers `m = 2^p`. */
  const RegisterCount: nat := 16384
  /** Bits of the hash left for the rank computation, `64 - p`. */
  const ValueBits: nat := 50
  /** Largest rank `add` can store: 50 leading zeros plus one. */
  const MaxRank: nat := 51

  /**
   * getIndex: `(short) ((hash >>> 50) & 16383)`, the top 14 bits of the hash;
   * the mask and the cast to `short` lose nothing.
   */
  function GetIndex(h: Hash): (r: bv16)
    ensures r < 16384
    ensures r as bv64 == h >> 50
  {
    ((h >> 50) & 16383) as bv16
  }

  /** getIndex as an array position. */
  function Slot(h: Hash): (i: nat)
    ensures i < RegisterCount
  {
    GetIndex(h) as int
  }

  /** getValue: `hash & 1125899906842623L`, the low 50 bits of the hash. */
  function GetValue(h: Hash): (r: bv64)
    ensures r <= 0x3_FFFF_FFFF_FFFF
  {
    h & 0x3_FFFF_FFFF_FFFF
  }

  /** Read unsigned, the hash is `getIndex(h) * 2^50 + getValue(h)`. */
  lemma UnsignedSplit(h: Hash)
    ensures GetIndex(h) as bv64 == h / 0x4_0000_0000_0000
    ensures GetValue(h) == h % 0x4_0000_0000_0000
  {
  }

  /** The hash whose top 14 bits are `index` and whose low 50 bits are `value`. */
  function Join(index: bv16, value: bv64): (h: Hash)
    requires index < 16384 && value <= 0x3_FFFF_FFFF_FFFF
  {
    ((index as bv64) << 50) | value
  }

  /** A hash is exactly its index bits followed by its value bits. */
  lemma SplitJoin(h: Hash)
    ensures Join(GetIndex(h), GetValue(h)) == h
  {
  }

  /** Every (index, value) pair comes back out of the hash built from it. */
  lemma JoinSplit(index: bv16, value: bv64)
    requires index < 16384 && value <= 0x3_FFFF_FFFF_FFFF
    ensures GetIndex(Join(index, value)) == index
    ensures GetValue(Join(index, value)) == value
  {
  }

  /** Bit `k` of `v` is set: `(v >>> k & 1) != 0`, for a bit-vector position `k`. */
  predicate BitAt(v: bv64, k: bv8)
    requires k < 64
  {
    (v >> k) & 1 == 1
  }

  /**
   * The 8-bit shift amount for the integer position `j` (the value of a Java
   * `byte` counter), obtained by counting up from 0. It is the value of
   * `j as bv8`; the recursion is used because the solver handles the
   * conversion from `int` to a bit-vector far more slowly.
   */
  function Position(j: nat): (k: bv8)
    requires j < 64
    ensures k as int == j
  {
    if j == 0 then 0 else Position(j - 1) + 1
  }

  /** Bit `j` of `v` is set, for an integer position `j`. */
  predicate Bit(v: bv64, j: nat)
    requires j < 64
  {
    BitAt(v, Position(j))
  }

  /**
   * The number of consecutive zero bits of `v` scanning from bit `n - 1`
   * downward, stopping at the first one bit (and at `n` when there is none).
   */
  function ZeroRun(v: bv64, n: nat): (r: nat)
    requires n <= 64
    ensures r <= n
  {
    if n == 0 || Bit(v, n - 1) then 0 else 1 + ZeroRun(v, n - 1)
  }

  /**
   * What the zero run is: bits `n - 1` down to `n - r` are clear, and the bit
   * just below them is set unless the run reaches bit 0.
   */
  lemma {:induction false} ZeroRunBits(v: bv64, n: nat)
    requires n <= 64
    ensures forall j :: n - ZeroRun(v, n) <= j < n ==> !Bit(v, j)
    ensures ZeroRun(v, n) < n ==> Bit(v, n - 1 - ZeroRun(v, n))
  {
    if n > 0 && !Bit(v, n - 1) {
      var r := ZeroRun(v, n - 1);
      assert ZeroRun(v, n) == r + 1;
      ZeroRunBits(v, n - 1);
      forall j | n - (r + 1) <= j < n
        ensures !Bit(v, j)
      {
        if j < n - 1 {
          assert n - 1 - r <= j;
        }
      }
    }
  }

  /**
   * leadingZeros: the loop scanning bits 49 down to 0 with Java `byte`
   * counters `zeros` and `i`; neither leaves [-1, 50], so neither wraps.
   * The result is the zero run below bit 50: at most 50, and by
   * `ZeroRunBits` bits 49 down to `50 - zeros` are clear and the bit just
   * below them is set unless all 50 are clear.
   */
  method LeadingZeros(value: bv64) returns (zeros: nat)
    ensures zeros == ZeroRun(value, ValueBits)
  {
    zeros := 0;
    var i: int := 49;
    // `(value >>> i & 1) == 0`
    while i > -1 && !Bit(value, i)
      invariant -1 <= i <= 49
      invariant zeros == 49 - i
      invariant ZeroRun(value, ValueBits) == zeros + ZeroRun(value, i + 1)
      decreases i
    {
      zeros := zeros + 1;
      i := i - 1;
    }
  }

  /**
   * The rank `add` stores: `(byte) (leadingZeros(getValue(hash)) + 1)`. It
   * lies in [1, 51], so it fits in a Java byte and the cast is exact.
   */
  function Rank(h: Hash): (r: nat)
    ensures 1 <= r <= MaxRank
  {
    ZeroRun(GetValue(h), ValueBits) + 1
  }

  // ---- facts about single bits, proved on bit-vector positions

  lemma SameLowBitsAt(v: bv64, w: bv64, k: bv8)
    requires v & 0x3_FFFF_FFFF_FFFF == w & 0x3_FFFF_FFFF_FFFF && k < 50
    ensures BitAt(v, k) == BitAt(w, k)
  {
  }

  lemma ClearedLowBitAt(v: bv64, k: bv8)
    requires v & 0x3_FFFF_FFFF_FFFF == 0 && k < 50
    ensures !BitAt(v, k)
  {
  }

  /**
   * The masked bits of `v` are all clear once each of the 50 positions is.
   * Each position is named as a literal so that the solver evaluates every
   * shift on a constant; over a symbolic position it does not close the proof.
   */
  lemma ClearAtEveryPosition(v: bv64)
    requires forall k: bv8 :: k < 50 ==> !BitAt(v, k)
    ensures v & 0x3_FFFF_FFFF_FFFF == 0
  {
    assert !BitAt(v, 0) && !BitAt(v, 1) && !BitAt(v, 2) && !BitAt(v, 3) && !BitAt(v, 4) && !BitAt(v, 5) && !BitAt(v, 6) && !BitAt(v, 7) && !BitAt(v, 8) && !BitAt(v, 9);
    assert !BitAt(v, 10) && !BitAt(v, 11) && !BitAt(v, 12) && !BitAt(v, 13) && !BitAt(v, 14) && !BitAt(v, 15) && !BitAt(v, 16) && !BitAt(v, 17) && !BitAt(v, 18) && !BitAt(v, 19);
    assert !BitAt(v, 20) && !BitAt(v, 21) && !BitAt(v, 22) && !BitAt(v, 23) && !BitAt(v, 24) && !BitAt(v, 25) && !BitAt(v, 26) && !BitAt(v, 27) && !BitAt(v, 28) && !BitAt(v, 29);
    assert !BitAt(v, 30) && !BitAt(v, 31) && !BitAt(v, 32) && !BitAt(v, 33) && !BitAt(v, 34) && !BitAt(v, 35) && !BitAt(v, 36) && !BitAt(v, 37) && !BitAt(v, 38) && !BitAt(v, 39);
    assert !BitAt(v, 40) && !BitAt(v, 41) && !BitAt(v, 42) && !BitAt(v, 43) && !BitAt(v, 44) && !BitAt(v, 45) && !BitAt(v, 46) && !BitAt(v, 47) && !BitAt(v, 48) && !BitAt(v, 49);
  }

  /** Bits 49..0 of `v` are all clear exactly when `v` is 0 under the 50-bit mask. */
  lemma LowBitsClear(v: bv64)
    ensures v & 0x3_FFFF_FFFF_FFFF == 0 <==> forall j :: 0 <= j < 50 ==> !Bit(v, j)
  {
    if v & 0x3_FFFF_FFFF_FFFF == 0 {
      forall j | 0 <= j < 50 ensures !Bit(v, j) {
        ClearedLowBitAt(v, Position(j));
      }
    }
    if forall j :: 0 <= j < 50 ==> !Bit(v, j) {
      forall k: bv8 | k < 50 ensures !BitAt(v, k) {
        assert Position(k as int) == k;
        assert !Bit(v, k as int);
      }
      ClearAtEveryPosition(v);
    }
  }

  /** Two values that agree on their `n` lowest bits have the same zero run there. */
  lemma {:induction false} ZeroRunLowBits(v: bv64, w: bv64, n: nat)
    requires n <= ValueBits
    requires v & 0x3_FFFF_FFFF_FFFF == w & 0x3_FFFF_FFFF_FFFF
    ensures ZeroRun(v, n) == ZeroRun(w, n)
  {
    if n > 0 {
      SameLowBitsAt(v, w, Position(n - 1));
      ZeroRunLowBits(v, w, n - 1);
    }
  }

  /** leadingZeros depends on bits 49..0 only: bits 63..50 are ignored. */
  lemma LeadingZerosIgnoresHighBits(v: bv64, w: bv64)
    requires v & 0x3_FFFF_FFFF_FFFF == w & 0x3_FFFF_FFFF_FFFF
    ensures ZeroRun(v, ValueBits) == ZeroRun(w, ValueBits)
  {
    ZeroRunLowBits(v, w, ValueBits);
  }

  /** leadingZeros returns 50, its maximum, exactly when bits 49..0 are all zero. */
  lemma LeadingZerosAllZero(v: bv64)
    ensures ZeroRun(v, ValueBits) == ValueBits <==> v & 0x3_FFFF_FFFF_FFFF == 0
  {
    ZeroRunBits(v, ValueBits);
    LowBitsClear(v);
  }

  /** The largest rank, 51, is stored exactly for hashes whose 50 value bits are all zero. */
  lemma MaxRankIffZeroValue(h: Hash)
    ensures Rank(h) == MaxRank <==> GetValue(h) == 0
  {
    LeadingZerosAllZero(GetValue(h));
  }

  /** The concrete cases of HyperLogLogTest, with Java's -1L written as all 64 bits set. */
  lemma SplitExamples()
    ensures GetIndex(0xFFFF_FFFF_FFFF_FFFF) == 16383
    ensures GetIndex(1125899906842623) == 0
    ensures GetIndex(1125899906842624) == 1
    ensures GetValue(0xFFFF_FFFF_FFFF_FFFF) == 1125899906842623
    ensures GetValue(0) == 0
    ensures GetValue(1125899906842624) == 0
    ensures GetValue(1125899906842625) == 1
  {
  }

  /** The leadingZeros cases of HyperLogLogTest, proved of the method `LeadingZeros` itself. */
  method LeadingZerosExamples() returns (a: nat, b: nat, c: nat, d: nat)
    ensures a == 0 && b == 1 && c == 50 && d == 30
  {
    a := LeadingZeros(1125899906842623);
    b := LeadingZeros(562949953421310);
    c := LeadingZeros(0);
    LeadingZerosAllZero(0);
    d := LeadingZeros(1048575);
    ZeroRunBits(1048575, ValueBits);
    assert Bit(1048575, 19);
  }
}
