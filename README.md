# java-hll in Dafny

This project models the core of a HyperLogLog cardinality estimator in Java.
The core is the class `io.anders.hll.HyperLogLog`, which has precision
p = 14 and m = 2^14 = 16384 registers. The model covers four parts:

- How a 64-bit hash is split. `getIndex` gives the top 14 bits and `getValue`
  gives the low 50 bits.
- The `leadingZeros` loop over bits 49 down to 0.
- The register update done by `add`, and the register-wise maximum done by
  `merge`.
- The count of zero registers that `count` keeps for linear counting.

The project has three modules:

- `HashSplit` (`hash_split.dfy`) covers the hash split and the rank. A Java
  `long` hash is modelled as its 64 raw bits, `bv64`. Java's `>>>` is
  therefore Dafny's `>>` on `bv64`, and Java's `-1L` is
  `0xFFFF_FFFF_FFFF_FFFF`.
  - `GetIndex` and `GetValue` model `getIndex` and `getValue`.
  - `LeadingZeros` is the `while` loop itself. Its result is proved equal to
    the recursive definition `ZeroRun`.
  - `Rank` is `leadingZeros(getValue(h)) + 1`.
  - The lemmas show how index and value make up the hash, what the zero
    run counts, and that it ignores bits 63..50. They also prove the unit
    tests' concrete cases.
- `Registers` (`registers.dfy`) covers the register array as a value
  (`seq<int>`).
  - `Insert` is the conditional store of `add`. `Merge` is the register-wise
    maximum of `merge`.
  - `Fill` and `Build` give the registers of a new estimator after a history
    of updates or of hashes.
  - The lemmas prove the laws that make the sketch mergeable. The registers
    are the per-register maximum rank. They do not depend on order or
    repetition. Merging two sketches gives the sketch of the concatenated
    input.
  - The zero tally is proved equal to 16384 minus the number of registers
    selected.
- `Hll` (`hll.dfy`) covers the class `HyperLogLog`. Its fields are the
  `array<JByte>` register array and a ghost history `samples`. Each sample
  is the (register, rank) pair of one absorbed hash. `Valid` states that the
  array equals `Fill(samples)`.
  - `AddHash` is `add` starting from the hash.
  - `Merge` is `merge`.
  - `ZeroRegisters` is the loop of `count`, with only the integer tally
    kept.
  - `add`'s final conditional store is its own method, `Store`. The `for`
    loop of `merge` is its own method, `MaxFrom`. Each works on the array
    alone, so its proof does not carry the class invariant.

Registers hold values in [0, 51]. The rank stored is `leadingZeros + 1`,
and `leadingZeros` returns 50 for a hash whose low 50 bits are all zero,
so a rank of 51 occurs. `Rank` is proved to lie in [1, 51], and `MaxRankIffZeroValue` proves
that 51 is reached exactly for those hashes. Because 51 fits in a Java
`byte`, the `(byte)` cast in `add` never wraps.

The number of registers is a constant, so two estimators always have the
same precision. `merge` therefore has no precision-mismatch error, and the
model has none.

## Model

| member | source | states |
|---|---|---|
| HashSplit.GetIndex | src/main/java/io/anders/hll/HyperLogLog.java:50-52 | the index is below 16384 and equals `hash >>> 50`, so the mask and the cast to `short` lose nothing |
| HashSplit.Slot | src/main/java/io/anders/hll/HyperLogLog.java:89 | the index, used as an array position, is a valid register number (< 16384) |
| HashSplit.GetValue | src/main/java/io/anders/hll/HyperLogLog.java:60-62 | the value is at most 2^50 − 1 |
| HashSplit.UnsignedSplit | src/main/java/io/anders/hll/HyperLogLog.java:50-62 | read unsigned, index = hash / 2^50 and value = hash mod 2^50, so hash = index·2^50 + value |
| HashSplit.SplitJoin | src/main/java/io/anders/hll/HyperLogLog.java:50-62 | putting a hash's index bits back above its value bits gives the hash again: the split loses nothing |
| HashSplit.JoinSplit | src/main/java/io/anders/hll/HyperLogLog.java:50-62 | every index < 16384 and value < 2^50 come back out of the hash built from them: every pair occurs |
| HashSplit.SplitExamples | src/test/java/io/anders/hll/HyperLogLogTest.java:30-71 | the unit tests' getIndex and getValue cases: −1→16383, 2^50−1→0, 2^50→1; −1→2^50−1, 0→0, 2^50→0, 2^50+1→1 |
| HashSplit.ZeroRun | src/main/java/io/anders/hll/HyperLogLog.java:70-78 | the recursive definition of the count of zero bits from bit n−1 downward; it is at most n |
| HashSplit.ZeroRunBits | src/main/java/io/anders/hll/HyperLogLog.java:73 | the zero run means what leadingZeros promises: bits n−1 down to n−r are clear, and the next bit down is set unless the run reaches bit 0 |
| HashSplit.LeadingZeros | src/main/java/io/anders/hll/HyperLogLog.java:70-78 | the loop over bits 49..0 with byte counters returns exactly the zero run below bit 50 |
| HashSplit.Rank | src/main/java/io/anders/hll/HyperLogLog.java:93 | the rank `(byte)(leadingZeros(value) + 1)` lies in [1, 51], so the byte cast is exact |
| HashSplit.LowBitsClear | src/main/java/io/anders/hll/HyperLogLog.java:61 | masking with 2^50 − 1 gives 0 exactly when each of bits 49..0 is clear |
| HashSplit.ZeroRunLowBits | src/main/java/io/anders/hll/HyperLogLog.java:73 | two values that agree under the 50-bit mask have the same zero run below any bit n ≤ 50 |
| HashSplit.LeadingZerosIgnoresHighBits | src/main/java/io/anders/hll/HyperLogLog.java:70-78 | leadingZeros depends only on bits 49..0 |
| HashSplit.LeadingZerosAllZero | src/main/java/io/anders/hll/HyperLogLog.java:70-78 | leadingZeros is 50 exactly when bits 49..0 are all zero |
| HashSplit.MaxRankIffZeroValue | src/main/java/io/anders/hll/HyperLogLog.java:91-93 | the rank is 51 exactly when getValue of the hash is 0 |
| HashSplit.LeadingZerosExamples | src/test/java/io/anders/hll/HyperLogLogTest.java:10-28 | the loop itself returns the unit tests' values: 2^50−1→0, 562949953421310→1, 0→50, 1048575→30 |
| Registers.Empty | src/main/java/io/anders/hll/HyperLogLog.java:26 | a new register array holds 16384 zeros |
| Registers.Insert | src/main/java/io/anders/hll/HyperLogLog.java:94-96 | the selected register becomes max(old, rank); every other register is unchanged; no register decreases; registers stay in [0, 51] |
| Registers.Observe | src/main/java/io/anders/hll/HyperLogLog.java:89-93 | the (register, rank) pair add derives from a hash has register < 16384 and rank in [1, 51] |
| Registers.Add | src/main/java/io/anders/hll/HyperLogLog.java:85-97 | add of a hash raises the register its index selects to max(old, rank of the hash), leaves every other register unchanged, and keeps registers in [0, 51] |
| Registers.Merge | src/main/java/io/anders/hll/HyperLogLog.java:129-134 | each register of the result is the maximum of the two inputs' registers; registers stay in [0, 51] |
| Registers.Fill | src/main/java/io/anders/hll/HyperLogLog.java:85-97 | the registers after a history of updates are 16384 values in [0, 51] |
| Registers.Build | src/main/java/io/anders/hll/HyperLogLog.java:85-97 | the registers after adding a sequence of hashes are 16384 values in [0, 51] |
| Registers.BuildStep | src/main/java/io/anders/hll/HyperLogLog.java:85-97 | adding one more hash is one more add applied to the previous registers |
| Registers.InsertIdempotent | src/main/java/io/anders/hll/HyperLogLog.java:94-96 | a second identical update changes nothing, so adding a hash twice is adding it once |
| Registers.InsertCommutes | src/main/java/io/anders/hll/HyperLogLog.java:94-96 | two updates commute, so two adds commute |
| Registers.FillIsMaxRank | src/main/java/io/anders/hll/HyperLogLog.java:94-96 | each register is the largest rank among the updates that select it: at least each such rank, attained by one of them, and 0 exactly when none selects it |
| Registers.FillOrderIndependent | src/main/java/io/anders/hll/HyperLogLog.java:94-96 | histories with the same set of updates give the same registers |
| Registers.BuildIsMaxRank | src/main/java/io/anders/hll/HyperLogLog.java:85-97 | each register is the largest rank among the added hashes whose index selects it, and 0 exactly when no added hash selects it |
| Registers.OrderIndependent | src/main/java/io/anders/hll/HyperLogLog.java:85-97 | the registers depend only on the set of hashes added, not on their order or repetition |
| Registers.MergeCommutative | src/main/java/io/anders/hll/HyperLogLog.java:129-134 | merge(a, b) and merge(b, a) give the same registers |
| Registers.MergeAssociative | src/main/java/io/anders/hll/HyperLogLog.java:129-134 | merging is associative |
| Registers.MergeIdempotent | src/main/java/io/anders/hll/HyperLogLog.java:129-134 | merging registers with themselves changes nothing |
| Registers.MergeEmpty | src/main/java/io/anders/hll/HyperLogLog.java:129-134 | merging in a new estimator changes nothing |
| Registers.InsertIntoMerge | src/main/java/io/anders/hll/HyperLogLog.java:94-96 | an update after a merge is the update applied to the merged-in side first |
| Registers.FillMerge | src/main/java/io/anders/hll/HyperLogLog.java:129-134 | merging the registers of two update histories gives the registers of their concatenation |
| Registers.MergeIsUnion | src/main/java/io/anders/hll/HyperLogLog.java:129-134 | merging the estimators built from two hash sequences equals the estimator built from both |
| Registers.ZeroCount | src/main/java/io/anders/hll/HyperLogLog.java:106-112 | the number of zero registers is at most the number of registers |
| Registers.ZeroCountAll | src/main/java/io/anders/hll/HyperLogLog.java:106-112 | the tally equals the length exactly when all registers are 0, and is 0 exactly when none is |
| Registers.ZeroCountEmpty | src/main/java/io/anders/hll/HyperLogLog.java:26 | a new estimator has 16384 zero registers |
| Registers.ZeroCountUpdate | src/main/java/io/anders/hll/HyperLogLog.java:106-112 | changing one register moves the tally by that register's old and new zero-ness |
| Registers.ZeroCountInsert | src/main/java/io/anders/hll/HyperLogLog.java:94-96 | an update lowers the tally by one exactly when the register it touches was 0 |
| Registers.ZeroCountFill | src/main/java/io/anders/hll/HyperLogLog.java:106-112 | after a history of updates, the tally is 16384 minus the number of distinct registers selected |
| Registers.ZeroCountBuild | src/main/java/io/anders/hll/HyperLogLog.java:106-112 | after adding hashes to a new estimator, the tally is 16384 minus the number of distinct indices among the hashes |
| Hll.AddParts | src/main/java/io/anders/hll/HyperLogLog.java:89-93 | the index and leading-zero count add computes form the hash's sample, so add's update is `Insert` at that index with that rank |
| Hll.HyperLogLog.constructor | src/main/java/io/anders/hll/HyperLogLog.java:26-29 | a new estimator has a fresh array of 16384 zero registers and an empty history |
| Hll.HyperLogLog.AddHash | src/main/java/io/anders/hll/HyperLogLog.java:85-97 | the array becomes `Add` of the old one, and the hash's sample is appended to the history, keeping the invariant |
| Hll.HyperLogLog.Store | src/main/java/io/anders/hll/HyperLogLog.java:94-96 | the array becomes `Insert` of the old one at the index with the rank |
| Hll.HyperLogLog.Merge | src/main/java/io/anders/hll/HyperLogLog.java:129-134 | the array becomes the register-wise maximum of both old arrays, `that`'s array is unchanged (also when `that` is this estimator), and the histories concatenate, keeping the invariant |
| Hll.HyperLogLog.MaxFrom | src/main/java/io/anders/hll/HyperLogLog.java:130-133 | the loop over 16384 registers leaves the register-wise maximum and does not change the other array |
| Hll.HyperLogLog.ZeroRegisters | src/main/java/io/anders/hll/HyperLogLog.java:104-113 | the loop counts the zero registers, which number 16384 minus the distinct registers selected by the absorbed hashes |

## Left out

- `hashElement` (HyperLogLog.java:39-41) computes Murmur3 through the Guava
  library, which is not part of this model. `AddHash` takes the 64-bit hash
  as its argument, and `add(String)` is `AddHash(hashElement(element))`.
- The floating-point part of `count` (HyperLogLog.java:105-121) is not
  modelled: the `alpha` constant, the sum of 2^−register, the raw estimate,
  the switch to linear counting (`m · ln(m / zeroRegisters)`) and the final
  rounding. Only the integer tally of zero registers is modelled.
- `Main.java` is a benchmark driver. For n = 1 to 100000 it adds n
  synthetic strings to a new estimator and writes `expected,actual,error`
  rows to `output.csv`. The `calculate_hash` test prints a hash. Neither
  is part of this model.
- Concurrency is not modelled. The Java class is not synchronized, and the
  model assumes that one caller at a time uses each estimator.
- A `null` argument to `merge` is not modelled. Dafny's class types are
  non-null, so the Java `NullPointerException` has no counterpart.
- Hll.HyperLogLog.AddHash: the ghost history records each hash's
  (register, rank) sample, not the hash itself. The hash-level laws
  (`Build`, `OrderIndependent`, `MergeIsUnion`, `ZeroCountBuild`) are
  stated on values through `Observations`, and they are not restated as
  class invariants.
