/** The packed dense registers of types/register/registers.go, with their running counters. */
module PackedRegisters {
  import opened Bits
  import opened Counters
  import opened PackedBits

  lemma {:induction false} OneRegisterChanged(data: seq<Byte>, size: nat, i: nat, v: nat)
    requires Holds(data, size) && i < size && v < 64
    ensures InRange(data, i) && FirstByte(i) < |data|
    ensures GetReg(data, i) == Unpack(data, size)[i]
    ensures Unpack(PutReg(data, i, v), size) == Unpack(data, size)[i := v]
    ensures SumOf(Unpack(PutReg(data, i, v), size)) == SumOf(Unpack(data, size)) - Weight(GetReg(data, i)) + Weight(v)
    ensures ZerosIn(Unpack(PutReg(data, i, v), size)) ==
            ZerosIn(Unpack(data, size)) - (if GetReg(data, i) == 0 then 1 else 0) + (if v == 0 then 1 else 0)
    ensures GetReg(data, i) == 0 ==> ZerosIn(Unpack(data, size)) > 0
  {
    HoldsInRange(data, size, i);
    UnpackPut(data, size, i, v);
    SumUpdate(Unpack(data, size), i, v);
  }

  class Registers {
    const data: array<Byte>
    const size: nat
    const precision: nat
    const sum: Sum
    const zeros: ZeroCounter

    ghost predicate Valid()
      reads zeros
    {
      && data.Length == PackedLength(size)
      && zeros.Valid()
      && sum.precision == zeros.precision == precision
    }

    /** The register values the bytes stand for. */
    ghost function Regs(): (regs: seq<nat>)
      requires Valid()
      reads data, zeros
      ensures |regs| == size && forall i | 0 <= i < size :: regs[i] <= 63
    {
      Unpack(data[..], size)
    }

    /** The running counters agree with the registers; the zero counter is a uint16. */
    ghost predicate Exact()
      requires Valid()
      reads data, sum, zeros
    {
      && sum.val == SumOf(Regs())
      && zeros.Reads(ZerosIn(Regs()))
    }

    /** The counters start from the configured precision, so they are exact for 2^precision registers. */
    constructor (size: nat, precision: nat, concurrent: bool)
      ensures Valid() && fresh(data) && fresh(sum) && fresh(zeros)
      ensures this.size == size && this.precision == precision
      ensures Regs() == seq(size, i => 0)
      ensures Exact() <==> size == Pow2(precision)
    {
      this.size := size;
      this.precision := precision;
      var bytes := new Byte[PackedLength(size)](i => 0);
      var s := new Sum(precision, Pow2(precision) as real);
      var z := new ZeroCounter(precision, concurrent, Pow2(precision) % TWO16);
      data, sum, zeros := bytes, s, z;
      new;
      UnpackZeros(data[..], size);
      SumZeros(Regs());
    }

    /** Writes one register and moves both counters along; panics on a value above 63. */
    method Set(i: nat, v: nat)
      requires Valid() && i < size && v <= 63
      modifies data, sum, zeros
      ensures Valid()
      ensures FirstByte(i) < data.Length && data[..] == PutReg(old(data[..]), i, v)
      ensures Regs() == old(Regs())[i := v]
      ensures old(Exact()) ==> Exact()
    {
      OneRegisterChanged(data[..], size, i, v);
      hide Unpack, GetReg, PutReg, FirstByte, PackedLength, Holds, InRange, SumOf, ZerosIn, Weight, ZeroCounter.Reads, ZeroCounter.Valid;
      ghost var zerosBefore := ZerosIn(Regs());
      var u := Get(i);
      sum.ChangeSum(v, u);
      WriteBits(i, v);
      assert Regs() == old(Regs())[i := v];
      MoveZeros(u, v, zerosBefore);
    }

    /** The part of Set that keeps the zero counter in step when register u becomes v. */
    method MoveZeros(u: nat, v: nat, ghost n: nat)
      requires zeros.Valid()
      requires u == 0 ==> n > 0
      modifies zeros
      ensures zeros.Valid()
      ensures old(zeros.Reads(n)) ==> zeros.Reads(n - (if u == 0 then 1 else 0) + (if v == 0 then 1 else 0))
    {
      hide ZeroCounter.Get, ZeroCounter.Reads;
      if u != v && u == 0 {
        zeros.Dec(n);
      }
      if u != v && v == 0 {
        zeros.Inc(n);
      }
    }

    /** The part of Set that rewrites the one or two bytes holding register i. */
    method WriteBits(i: nat, v: nat)
      requires FirstByte(i) < data.Length && v <= 63
      modifies data
      ensures data[..] == PutReg(old(data[..]), i, v)
    {
      ghost var before := data[..];
      var byteIndex, bitOffset := FirstByte(i), BitOffset(i);
      var cur := data[byteIndex] as bv16;
      if byteIndex + 1 < data.Length {
        cur := cur | ((data[byteIndex + 1] as bv16) << 8);
      }
      assert cur == Window(before, byteIndex);
      cur := Splice(cur, bitOffset, v as bv8);
      hide Splice, Window, FirstByte, BitOffset;
      data[byteIndex] := (cur & 255) as bv8;
      if byteIndex + 1 < data.Length {
        data[byteIndex + 1] := (cur >> 8) as bv8;
      }
      assert data[..] == StoreWindow(before, byteIndex, cur);
    }

    method Get(i: nat) returns (v: nat)
      requires Valid() && i < size
      ensures v == Regs()[i] && v <= 63
      ensures FirstByte(i) < data.Length && v == GetReg(data[..], i)
    {
      HoldsInRange(data[..], size, i);
      var byteIndex, bitOffset := FirstByte(i), BitOffset(i);
      var cur := data[byteIndex] as bv16;
      if byteIndex + 1 < data.Length {
        cur := cur | ((data[byteIndex + 1] as bv16) << 8);
      }
      assert cur == Window(data[..], byteIndex);
      hide Window, Field;
      v := Field(cur, bitOffset) as nat;
      assert v == GetReg(data[..], i);
    }

    method Reset()
      requires Valid()
      modifies data, sum, zeros
      ensures Valid() && Regs() == seq(size, i => 0)
      ensures Exact() <==> size == Pow2(precision)
    {
      sum.Reset();
      zeros.Reset();
      for i := 0 to data.Length
        invariant forall b | 0 <= b < i :: data[b] == 0
        invariant sum.val == Pow2(precision) as real && zeros.Valid() && zeros.Reads(Pow2(precision))
      {
        data[i] := 0;
      }
      UnpackZeros(data[..], size);
      SumZeros(Regs());
    }

    method GetDataCopy() returns (copy: seq<Byte>)
      requires Valid()
      ensures Holds(copy, size) && copy == data[..] && Unpack(copy, size) == Regs()
    {
      copy := data[..];
    }

    /** Copies the bytes in and reports whether their number fits; the counters are left as they were. */
    method SetData(bytes: seq<Byte>) returns (ok: bool)
      requires Valid()
      modifies data
      ensures Valid() && (ok <==> Holds(bytes, size))
      ensures data[..] == if ok then bytes else old(data[..])
    {
      if |bytes| != data.Length {
        return false;
      }
      for i := 0 to data.Length
        invariant data[..i] == bytes[..i]
      {
        data[i] := bytes[i];
      }
      return true;
    }

    method Recalculate()
      requires Valid()
      modifies sum, zeros
      ensures Valid() && Exact()
    {
      var newSum, newZeros := 0.0, 0;
      ghost var regs := Regs();
      hide Unpack, Weight, FirstByte, GetReg;
      for i := 0 to size
        modifies {}
        invariant newSum == SumOf(regs[..i]) && newZeros == ZerosIn(regs[..i]) % TWO16
      {
        var rho := Get(i);
        assert regs[..i + 1][..i] == regs[..i];
        WrapAdd(1, ZerosIn(regs[..i]), TWO16);
        if rho == 0 {
          newZeros := (newZeros + 1) % TWO16;
        }
        newSum := newSum + Weight(rho);
      }
      assert regs[..size] == regs;
      sum.Store(newSum);
      zeros.Store(newZeros);
    }
  }
}
