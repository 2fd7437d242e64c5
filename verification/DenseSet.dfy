/** The dense HyperLogLog set of types/hll/HLL.go over packed registers; bucket and state
    locks are erased, so each method is one step. */
module DenseHll {
  import opened Bits
  import opened Codec
  import opened SparseWords
  import opened RegisterMap
  import opened Counters
  import opened PackedBits
  import opened PackedRegisters

  /** The byte-level effect of recording one entry. */
  function RecordEntry(data: seq<Byte>, e: Entry): (data': seq<Byte>)
    requires FirstByte(e.index) < |data| && e.rho < 64
    ensures |data'| == |data|
  {
    PutReg(data, e.index, Max(GetReg(data, e.index), e.rho))
  }

  class DenseSet {
    const precision: nat
    const registers: Registers

    ghost predicate Valid()
      reads registers.data, registers.sum, registers.zeros
    {
      && Precision(precision)
      && registers.Valid()
      && registers.precision == precision
      && registers.size == Pow2(precision)
      && registers.Exact()
    }

    ghost function Regs(): (regs: seq<nat>)
      requires Valid()
      reads registers.data, registers.sum, registers.zeros
      ensures |regs| == Pow2(precision) && forall i | 0 <= i < |regs| :: regs[i] <= 63
    {
      registers.Regs()
    }

    /** No storage is shared with `other`. */
    ghost predicate Apart(other: DenseSet) {
      && registers.data != other.registers.data
      && registers.sum != other.registers.sum
      && registers.zeros != other.registers.zeros
    }

    /** NewHLL */
    constructor (precision: nat, concurrent: bool)
      requires Precision(precision)
      ensures Valid() && this.precision == precision
      ensures fresh(registers) && fresh(registers.data) && fresh(registers.sum) && fresh(registers.zeros)
      ensures Regs() == seq(Pow2(precision), i => 0)
    {
      this.precision := precision;
      registers := new Registers(Pow2(precision), precision, concurrent);
    }

    method Insert(hash: Hash)
      requires Valid()
      modifies registers.data, registers.sum, registers.zeros
      ensures Valid() && Regs() == SetMax(old(Regs()), DenseEntry(hash, precision))
      ensures FirstByte(DenseEntry(hash, precision).index) < registers.data.Length
      ensures registers.data[..] == RecordEntry(old(registers.data[..]), DenseEntry(hash, precision))
    {
      var p := precision;
      var idx := Shr(hash, 64 - p);
      var w := Low(hash, 64 - p);
      var r := Rho(w, 64 - p);
      assert Entry(idx, r) == DenseEntry(hash, p);
      hide *;
      SetRegisterMax(idx, r);
    }

    method SetRegisterMax(index: nat, rho: nat)
      requires Valid() && index < Pow2(precision) && rho <= 63
      modifies registers.data, registers.sum, registers.zeros
      ensures Valid() && Regs() == SetMax(old(Regs()), Entry(index, rho))
      ensures FirstByte(index) < registers.data.Length
      ensures registers.data[..] == RecordEntry(old(registers.data[..]), Entry(index, rho))
    {
      var v := registers.Get(index);
      registers.Set(index, Max(v, rho));
    }

    method Get(index: nat) returns (v: nat)
      requires Valid() && index < Pow2(precision)
      ensures v == Regs()[index] && v <= 63
    {
      v := registers.Get(index);
    }

    /** The estimate is computed from the running counters. */
    method GetElements(est: Estimators) returns (count: nat)
      requires Valid()
      ensures count == est.dense(precision, SumOf(Regs()), ZerosIn(Regs()) % TWO16)
    {
      count := est.dense(precision, registers.sum.val, registers.zeros.Get());
    }

    method Reset()
      requires Valid()
      modifies registers.data, registers.sum, registers.zeros
      ensures Valid() && Regs() == seq(Pow2(precision), i => 0)
    {
      registers.Reset();
    }

    /** Pointwise maximum; merging a set into itself is allowed and changes nothing. */
    method Merge(other: DenseSet)
      requires Valid() && other.Valid() && other.precision == precision
      requires other.registers == registers || Apart(other)
      modifies registers.data, registers.sum, registers.zeros
      ensures Valid() && Regs() == PointMax(old(Regs()), old(other.Regs()))
    {
      hide Registers.Regs, Registers.Exact, Registers.Valid, PutReg, FirstByte, Pow2;
      ghost var mine, theirs := Regs(), other.Regs();
      for i := 0 to Pow2(precision)
        invariant Valid() && other.Valid()
        invariant other.registers == registers ==> Regs() == mine
        invariant Apart(other) ==> other.Regs() == theirs
        invariant forall k | 0 <= k < i :: Regs()[k] == Max(mine[k], theirs[k])
        invariant forall k | i <= k < |mine| :: Regs()[k] == mine[k]
      {
        var otherRho := other.Get(i);
        if otherRho > 0 {
          var v := registers.Get(i);
          if otherRho > v {
            registers.Set(i, otherRho);
          }
        }
      }
    }

    method GetRegisters() returns (bytes: seq<Byte>)
      requires Valid()
      ensures Holds(bytes, Pow2(precision)) && bytes == registers.data[..]
      ensures Unpack(bytes, Pow2(precision)) == Regs()
    {
      bytes := registers.GetDataCopy();
    }

    /** Loads received bytes and recomputes the counters, or reports a size mismatch. */
    method SetRegisters(bytes: seq<Byte>) returns (ok: bool)
      requires Valid()
      modifies registers.data, registers.sum, registers.zeros
      ensures Valid() && (ok <==> Holds(bytes, Pow2(precision)))
      ensures Regs() == if ok then Unpack(bytes, Pow2(precision)) else old(Regs())
    {
      if |bytes| != PackedLength(Pow2(precision)) {
        return false;
      }
      ok := registers.SetData(bytes);
      registers.Recalculate();
    }
  }
}
