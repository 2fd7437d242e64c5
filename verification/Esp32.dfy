/** The dense-only sketch of the ESP32 firmware (esp32/agent/hll.h), fixed at p = 14, and its
    agreement with the Go registers byte by byte. */
module Esp32 {
  import opened Bits
  import opened Codec
  import opened RegisterMap
  import opened PackedBits
  import opened DenseHll

  const HLL_P := 14
  const HLL_M := 16384
  const HLL_REG_BYTES := 12288

  /** hll_insert_ip: unlike the Go code it writes only when the register grows. */
  function EspRecord(data: seq<Byte>, e: Entry): (data': seq<Byte>)
    requires FirstByte(e.index) < |data| && e.rho < 64
    ensures |data'| == |data|
  {
    if e.rho > GetReg(data, e.index) then PutReg(data, e.index, e.rho) else data
  }

  /** hll_set masks its argument to six bits; for a rho that changes nothing. */
  lemma {:induction false} MaskIsIdle(v: nat)
    requires v < 64
    ensures ((v as bv8) & 0x3F) as nat == v
  {
    var b := v as bv8;
    assert b & 0x3F == b;
  }

  lemma {:induction false} MaskBelow64(v: Byte)
    ensures v & 0x3F < 64 && (v & 0x3F) as nat < 64
  {}

  lemma {:induction false} SameStep(data: seq<Byte>, e: Entry)
    requires InRange(data, e.index) && FirstByte(e.index) < |data| && e.rho < 64
    ensures EspRecord(data, e) == RecordEntry(data, e)
  {
    PutGet(data, e.index);
    var v := GetBits(data, e.index);
    hide GetBits, PutBits;
    BackAndForth(v);
  }

  lemma {:induction false} BackAndForth(v: bv8)
    requires v < 64
    ensures (v as nat) as bv8 == v
  {}

  lemma {:induction false} EntryFits(data: seq<Byte>, x: Hash)
    requires |data| == HLL_REG_BYTES
    ensures DenseEntry(x, HLL_P).rho < 64 && FirstByte(DenseEntry(x, HLL_P).index) < |data|
    ensures InRange(data, DenseEntry(x, HLL_P).index)
  {
    Pow2Values();
    HoldsInRange(data, HLL_M, DenseEntry(x, HLL_P).index);
  }

  /** The register bytes after the firmware has seen the hashes, starting from `data`. */
  function EspBytes(data: seq<Byte>, xs: seq<Hash>): (data': seq<Byte>)
    requires |data| == HLL_REG_BYTES
    ensures |data'| == HLL_REG_BYTES
    decreases |xs|
  {
    if xs == [] then data
    else
      EntryFits(data, xs[0]);
      EspBytes(EspRecord(data, DenseEntry(xs[0], HLL_P)), xs[1..])
  }

  /** The register bytes after Go's dense set at p = 14 has seen them (`DenseSet.Insert`). */
  function GoBytes(data: seq<Byte>, xs: seq<Hash>): (data': seq<Byte>)
    requires |data| == HLL_REG_BYTES
    ensures |data'| == HLL_REG_BYTES
    decreases |xs|
  {
    if xs == [] then data
    else
      EntryFits(data, xs[0]);
      GoBytes(RecordEntry(data, DenseEntry(xs[0], HLL_P)), xs[1..])
  }

  /** Firmware and Go agree on every byte for every sequence of hashes. */
  lemma {:induction false} ByteIdentical(data: seq<Byte>, xs: seq<Hash>)
    requires |data| == HLL_REG_BYTES
    ensures EspBytes(data, xs) == GoBytes(data, xs)
    decreases |xs|
  {
    if xs != [] {
      EntryFits(data, xs[0]);
      SameStep(data, DenseEntry(xs[0], HLL_P));
      ByteIdentical(RecordEntry(data, DenseEntry(xs[0], HLL_P)), xs[1..]);
    }
  }

  lemma {:induction false} EspStepDenotes(data: seq<Byte>, seen: set<Hash>, x: Hash)
    requires |data| == HLL_REG_BYTES && Unpack(data, HLL_M) == SpecRegs(seen, HLL_P)
    ensures FirstByte(DenseEntry(x, HLL_P).index) < |data| && DenseEntry(x, HLL_P).rho < 64
    ensures Unpack(EspRecord(data, DenseEntry(x, HLL_P)), HLL_M) == SpecRegs(seen + {x}, HLL_P)
  {
    Pow2Values();
    var e := DenseEntry(x, HLL_P);
    EntryFits(data, x);
    SameStep(data, e);
    SpecRegsInsert(seen, x, HLL_P);
    UnpackPut(data, HLL_M, e.index, Max(GetReg(data, e.index), e.rho));
    assert GetReg(data, e.index) == Unpack(data, HLL_M)[e.index];
    hide Unpack, SpecRegs, GetReg, PutReg, DenseEntry, FirstByte;
  }

  /** ... and hence with the specification of the whole sketch. */
  lemma {:induction false} EspDenotes(data: seq<Byte>, seen: set<Hash>, xs: seq<Hash>)
    requires |data| == HLL_REG_BYTES && Unpack(data, HLL_M) == SpecRegs(seen, HLL_P)
    ensures Unpack(EspBytes(data, xs), HLL_M) == SpecRegs(seen + (set x | x in xs), HLL_P)
    decreases |xs|
  {
    hide Unpack, SpecRegs, EspRecord, DenseEntry, FirstByte;
    if xs == [] {
      assert seen + (set x | x in xs) == seen;
    } else {
      EspStepDenotes(data, seen, xs[0]);
      EspDenotes(EspRecord(data, DenseEntry(xs[0], HLL_P)), seen + {xs[0]}, xs[1..]);
      assert seen + (set x | x in xs) == (seen + {xs[0]}) + (set x | x in xs[1..]);
    }
  }

  /** The firmware's static registers and counters. */
  class Firmware {
    const registers: array<Byte>
    var windowId: nat
    var inserts: nat

    ghost predicate Valid() {
      registers.Length == HLL_REG_BYTES
    }

    constructor ()
      ensures Valid() && fresh(registers) && windowId == 0 && inserts == 0
      ensures Unpack(registers[..], HLL_M) == SpecRegs({}, HLL_P)
    {
      registers := new Byte[HLL_REG_BYTES](i => 0);
      windowId, inserts := 0, 0;
      new;
      Pow2Values();
      UnpackZeros(registers[..], HLL_M);
      SpecRegsEmpty(HLL_P);
    }

    method Get(i: nat) returns (v: nat)
      requires Valid() && i < HLL_M
      ensures FirstByte(i) < registers.Length && v == GetReg(registers[..], i)
    {
      HoldsInRange(registers[..], HLL_M, i);
      var byteIndex, bitOffset := FirstByte(i), BitOffset(i);
      var cur := registers[byteIndex] as bv16;
      if byteIndex + 1 < HLL_REG_BYTES {
        cur := cur | ((registers[byteIndex + 1] as bv16) << 8);
      }
      assert cur == Window(registers[..], byteIndex);
      hide Window, Field;
      v := Field(cur, bitOffset) as nat;
    }

    /** hll_set masks its argument, a uint8, to six bits. */
    method Set(i: nat, v: Byte)
      requires Valid() && i < HLL_M
      modifies registers
      ensures FirstByte(i) < registers.Length && (v & 0x3F) as nat < 64
      ensures registers[..] == PutReg(old(registers[..]), i, (v & 0x3F) as nat)
    {
      HoldsInRange(registers[..], HLL_M, i);
      ghost var before := registers[..];
      var byteIndex, bitOffset := FirstByte(i), BitOffset(i);
      var cur := registers[byteIndex] as bv16;
      if byteIndex + 1 < HLL_REG_BYTES {
        cur := cur | ((registers[byteIndex + 1] as bv16) << 8);
      }
      assert cur == Window(before, byteIndex);
      MaskBelow64(v);
      BackAndForth(v & 0x3F);
      cur := Splice(cur, bitOffset, v & 0x3F);
      hide Splice, Window, FirstByte, BitOffset;
      registers[byteIndex] := (cur & 255) as bv8;
      if byteIndex + 1 < HLL_REG_BYTES {
        registers[byteIndex + 1] := (cur >> 8) as bv8;
      }
      assert registers[..] == StoreWindow(before, byteIndex, cur);
    }

    method InsertIp(hash: Hash)
      requires Valid()
      modifies this, registers
      ensures Valid() && windowId == old(windowId) && inserts == (old(inserts) + 1) % TWO32
      ensures registers[..] == EspBytes(old(registers[..]), [hash])
    {
      EntryFits(registers[..], hash);
      var e := DenseEntry(hash, HLL_P);
      Pow2Values();
      hide PutReg, GetReg, FirstByte, DenseEntry;
      var cur := Get(e.index);
      if e.rho > cur {
        MaskIsIdle(e.rho);
        Set(e.index, e.rho as Byte);
      }
      inserts := (inserts + 1) % TWO32;
    }

    /** Clears the registers for the next window. */
    method Reset()
      requires Valid()
      modifies this, registers
      ensures Valid() && windowId == (old(windowId) + 1) % TWO32 && inserts == 0
      ensures Unpack(registers[..], HLL_M) == SpecRegs({}, HLL_P)
    {
      for i := 0 to HLL_REG_BYTES
        invariant forall b | 0 <= b < i :: registers[b] == 0
        modifies registers
      {
        registers[i] := 0;
      }
      Pow2Values();
      UnpackZeros(registers[..], HLL_M);
      SpecRegsEmpty(HLL_P);
      windowId := (windowId + 1) % TWO32;
      inserts := 0;
    }
  }
}
