/**
 * The HyperLogLog class: a fixed array of 16384 byte registers that `add`
 * and `merge` update in place.
 *
 * The ghost history `samples` lists, in order, the (register, rank) pair of
 * every hash this estimator has absorbed, by its own adds and through every
 * estimator merged into it; `Valid` ties the array to that history through
 * `Registers.Fill`.
 */
module Hll {
  import opened HashSplit
  import opened Registers

  /** The pieces add computes are the sample `Add` is defined from. */
  lemma AddParts(r: seq<int>, h: Hash, registerIndex: nat, zeros: nat)
    requires |r| == RegisterCount
    requires registerIndex == Slot(h) && zeros == ZeroRun(GetValue(h), ValueBits)
    ensures Observe(h) == Sample(registerIndex, zeros + 1)
    ensures Add(r, h) == Insert(r, registerIndex, zeros + 1)
  {
  }

  class HyperLogLog {
    const registers: array<JByte>
    ghost var samples: seq<Sample>

    ghost predicate Valid()
      reads this, registers
    {
      && registers.Length == RegisterCount
      && (forall s :: s in samples ==> Fits(s))
      && registers[..] == Fill(samples)
    }

    /** A new estimator: every register is 0 and nothing has been absorbed. */
    constructor()
      ensures Valid() && fresh(registers)
      ensures samples == []
      ensures forall i :: 0 <= i < registers.Length ==> registers[i] == 0
    {
      registers := new JByte[RegisterCount](_ => 0);
      samples := [];
    }

    /**
     * add, from the hash of the element on: the rank of the hash's low 50
     * bits is stored in the register its top 14 bits select, when larger.
     */
    method AddHash(h: Hash)
      requires Valid()
      modifies this, registers
      ensures Valid()
      ensures samples == old(samples) + [Observe(h)]
      ensures registers[..] == Add(old(registers[..]), h)
    {
      var registerIndex := Slot(h);
      var value := GetValue(h);
      var zeros := LeadingZeros(value);
      var rank: JByte := zeros + 1;
      Store(registerIndex, rank);
      AddParts(old(registers[..]), h, registerIndex, zeros);
      samples := samples + [Observe(h)];
      assert samples[..|samples| - 1] == old(samples);
    }

    /**
     * merge: every register becomes the larger of its own value and that of
     * `that`; `that` is left as it was, even when it is this estimator.
     */
    method Merge(that: HyperLogLog)
      requires Valid() && that.Valid()
      modifies this, registers
      ensures Valid()
      ensures samples == old(samples) + old(that.samples)
      ensures registers[..] == Registers.Merge(old(registers[..]), old(that.registers[..]))
      ensures that.registers[..] == old(that.registers[..])
    {
      ghost var history := samples + that.samples;
      FillMerge(samples, that.samples);
      MaxFrom(that);
      samples := history;
    }

    /**
     * The conditional store that ends add. It is an internal step of
     * `AddHash`: it writes the array without extending `samples`, so on its
     * own it does not keep `Valid()`.
     */
    method Store(registerIndex: nat, rank: JByte)
      requires registers.Length == RegisterCount
      requires registerIndex < RegisterCount && 1 <= rank <= MaxRank
      modifies registers
      ensures registers[..] == Insert(old(registers[..]), registerIndex, rank)
    {
      if rank > registers[registerIndex] {
        registers[registerIndex] := rank;
      }
    }

    /**
     * The loop of merge, over the 16384 registers. It is an internal step of
     * `Merge`: it writes the array without extending `samples`, so on its own
     * it does not keep `Valid()`.
     */
    method MaxFrom(that: HyperLogLog)
      requires registers.Length == RegisterCount && that.registers.Length == RegisterCount
      modifies registers
      ensures registers[..] == Registers.Merge(old(registers[..]), old(that.registers[..]))
      ensures that.registers[..] == old(that.registers[..])
    {
      for i := 0 to RegisterCount
        invariant forall k :: 0 <= k < i ==>
                    registers[k] == Max(old(registers[k]), old(that.registers[k]))
        invariant forall k :: i <= k < RegisterCount ==> registers[k] == old(registers[k])
        invariant forall k :: 0 <= k < RegisterCount ==> that.registers[k] == old(that.registers[k])
      {
        if registers[i] < that.registers[i] {
          registers[i] := that.registers[i];
        }
      }
    }

    /**
     * The zero-register tally of count: the number of registers still 0,
     * which is 16384 minus the number of registers the absorbed hashes select.
     */
    method ZeroRegisters() returns (zeroRegisters: nat)
      requires Valid()
      ensures zeroRegisters == ZeroCount(registers[..])
      ensures zeroRegisters == RegisterCount - |SlotsOf(samples)|
    {
      zeroRegisters := 0;
      for i := 0 to registers.Length
        invariant zeroRegisters == ZeroCount(registers[..i])
      {
        assert registers[..i + 1][..i] == registers[..i];
        if registers[i] == 0 {
          zeroRegisters := zeroRegisters + 1;
        }
      }
      assert registers[..registers.Length] == registers[..];
      ZeroCountFill(samples);
    }
  }
}
