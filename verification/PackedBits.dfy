/** Six-bit registers packed into bytes, as both types/register/registers.go and
    esp32/agent/hll.h lay them out: register i occupies the bits 6i .. 6i+5, read and written
    through a 16-bit window over its first byte and the next one, if there is one. */
module PackedBits {

  type Byte = bv8

  function PackedLength(size: nat): nat {
    (size * 6 + 7) / 8
  }

  function Window(data: seq<Byte>, b: nat): bv16
    requires b < |data|
  {
    if b + 1 < |data| then (data[b] as bv16) | ((data[b + 1] as bv16) << 8) else data[b] as bv16
  }

  function Field(cur: bv16, bitOffset: nat): bv8
    requires bitOffset < 8
  {
    ((cur >> bitOffset) & 63) as bv8
  }

  function Splice(cur: bv16, bitOffset: nat, v: bv8): bv16
    requires bitOffset < 8
  {
    var mask: bv16 := 63 << bitOffset;
    (cur & !mask) | ((v as bv16) << bitOffset)
  }

  function FirstByte(i: nat): nat {
    i * 6 / 8
  }

  function BitOffset(i: nat): nat {
    i * 6 % 8
  }

  function GetBits(data: seq<Byte>, i: nat): bv8
    requires FirstByte(i) < |data|
  {
    Field(Window(data, FirstByte(i)), BitOffset(i))
  }

  function StoreWindow(data: seq<Byte>, b: nat, cur: bv16): (data': seq<Byte>)
    requires b < |data|
    ensures |data'| == |data|
  {
    var d := data[b := (cur & 255) as bv8];
    if b + 1 < |data| then d[b + 1 := (cur >> 8) as bv8] else d
  }

  function PutBits(data: seq<Byte>, i: nat, v: bv8): (data': seq<Byte>)
    requires FirstByte(i) < |data|
    ensures |data'| == |data|
  {
    var b := FirstByte(i);
    StoreWindow(data, b, Splice(Window(data, b), BitOffset(i), v))
  }

  lemma {:induction false} SpliceField(cur: bv16, o: nat, v: bv8)
    requires o == 0 || o == 2 || o == 4 || o == 6
    requires v < 64
    ensures Field(Splice(cur, o, v), o) == v
  {
    if o == 0 {} else if o == 2 {} else if o == 4 {} else {}
  }

  lemma {:induction false} SpliceSame(cur: bv16, o: nat)
    requires o == 0 || o == 2 || o == 4 || o == 6
    ensures Field(cur, o) < 64 && Splice(cur, o, Field(cur, o)) == cur
  {
    if o == 0 {} else if o == 2 {} else if o == 4 {} else {}
  }

  // ----- what a splice leaves alone, by the bit offsets that neighbouring registers have -----

  function Pair(lo: bv8, hi: bv8): bv16 {
    (lo as bv16) | ((hi as bv16) << 8)
  }

  predicate Offset(o: nat) {
    o == 0 || o == 2 || o == 4 || o == 6
  }

  /** A register that ends inside its first byte leaves the second byte alone. */
  lemma {:induction false} SpliceInByte(cur: bv16, o: nat, v: bv8)
    requires (o == 0 || o == 2) && v < 64
    ensures Splice(cur, o, v) >> 8 == cur >> 8
  {
    if o == 0 {} else {}
  }

  /** The two registers that start in the same byte. */
  lemma {:induction false} SpliceSameByte(cur: bv16, o: nat, ok: nat, v: bv8)
    requires (o == 0 && ok == 6) || (o == 6 && ok == 0)
    requires v < 64
    ensures Field(Splice(cur, o, v), ok) == Field(cur, ok)
  {
    if o == 0 {
      assert Field(Splice(cur, 0, v), 6) == Field(cur, 6);
    } else {
      assert Field(Splice(cur, 6, v), 0) == Field(cur, 0);
    }
  }

  /** The register that starts in the next byte. */
  lemma {:induction false} SpliceNextByte(cur: bv16, o: nat, ok: nat, v: bv8, next: bv8)
    requires (o == 0 && ok == 4) || (o == 6 && ok == 4) || (o == 4 && ok == 2) || (o == 2 && (ok == 0 || ok == 6))
    requires v < 64
    ensures Field(Pair((Splice(cur, o, v) >> 8) as bv8, next), ok) == Field(Pair((cur >> 8) as bv8, next), ok)
  {
    if o == 0 {} else if o == 6 {} else if o == 4 {} else if ok == 0 {} else {}
  }

  /** The register that starts in the byte before. */
  lemma {:induction false} SplicePreviousByte(cur: bv16, o: nat, ok: nat, v: bv8, previous: bv8)
    requires ok == 0 || ok == 2 || (o == 4 && ok == 6) || (o == 2 && ok == 4)
    requires Offset(o) && v < 64
    ensures Field(Pair(previous, (Splice(cur, o, v) & 255) as bv8), ok) == Field(Pair(previous, (cur & 255) as bv8), ok)
  {
    if ok == 0 {} else if ok == 2 {} else if o == 4 {} else {}
  }

  lemma {:induction false} WindowIsPair(data: seq<Byte>, b: nat)
    requires b < |data|
    ensures Window(data, b) == Pair(data[b], if b + 1 < |data| then data[b + 1] else 0)
    ensures (Window(data, b) & 255) as bv8 == data[b]
    ensures b + 1 < |data| ==> (Window(data, b) >> 8) as bv8 == data[b + 1]
    ensures b + 1 == |data| ==> Window(data, b) >> 8 == 0
  {}

  lemma {:induction false} StoreIsPair(data: seq<Byte>, b: nat, cur: bv16)
    requires b < |data|
    ensures StoreWindow(data, b, cur)[b] == (cur & 255) as bv8
    ensures b + 1 < |data| ==> StoreWindow(data, b, cur)[b + 1] == (cur >> 8) as bv8
    ensures b + 1 < |data| || cur >> 8 == 0 ==> Window(StoreWindow(data, b, cur), b) == cur
  {}

  /** Whether register i lies within `data`. */
  predicate InRange(data: seq<Byte>, i: nat) {
    i * 6 + 6 <= |data| * 8
  }

  /** A register in range has a first byte, and if that is the last one it ends there. */
  lemma {:induction false} Fits(data: seq<Byte>, i: nat)
    requires InRange(data, i)
    ensures FirstByte(i) < |data| && Offset(BitOffset(i))
    ensures FirstByte(i) + 1 == |data| ==> BitOffset(i) == 0 || BitOffset(i) == 2
  {
    var q, r := i / 4, i % 4;
    LayoutOf(i, q, r);
    assert 24 * q + 6 * r + 6 <= |data| * 8;
    hide FirstByte, BitOffset;
  }

  /** Reading back the register just written. */
  lemma {:induction false} GetPutSame(data: seq<Byte>, i: nat, v: bv8)
    requires InRange(data, i) && v < 64
    ensures GetBits(PutBits(data, i, v), i) == v
  {
    Fits(data, i);
    hide FirstByte, BitOffset, Field, Splice, StoreWindow, Window;
    var b, o := FirstByte(i), BitOffset(i);
    var cur := Window(data, b);
    SpliceField(cur, o, v);
    WindowIsPair(data, b);
    if b + 1 == |data| {
      SpliceInByte(cur, o, v);
    }
    StoreIsPair(data, b, Splice(cur, o, v));
  }

  /** Which bit offsets two registers in the same or in adjacent bytes can have. */
  lemma {:induction false} Layout(i: nat, k: nat)
    requires i != k
    ensures Offset(BitOffset(i)) && Offset(BitOffset(k))
    ensures FirstByte(k) == FirstByte(i) ==>
              (BitOffset(i), BitOffset(k)) == (0, 6) || (BitOffset(i), BitOffset(k)) == (6, 0)
    ensures FirstByte(k) == FirstByte(i) + 1 ==>
              || (BitOffset(k) == 4 && (BitOffset(i) == 0 || BitOffset(i) == 6))
              || (BitOffset(k) == 2 && BitOffset(i) == 4)
              || (BitOffset(k) == 0 && BitOffset(i) == 2)
              || (BitOffset(k) == 6 && BitOffset(i) == 2)
    ensures FirstByte(k) + 1 == FirstByte(i) ==>
              || BitOffset(k) == 0 || BitOffset(k) == 2
              || (BitOffset(i) == 4 && BitOffset(k) == 6)
              || (BitOffset(i) == 2 && BitOffset(k) == 4)
  {
    var q, r, s, t := i / 4, i % 4, k / 4, k % 4;
    assert i * 6 == 24 * q + 6 * r && k * 6 == 24 * s + 6 * t;
    LayoutOf(i, q, r);
    LayoutOf(k, s, t);
  }

  /** Four registers fill three bytes: first byte and bit offset of the r-th of group q. */
  function GroupByte(q: nat, r: nat): nat {
    if r < 2 then 3 * q else 3 * q + r - 1
  }

  function GroupOffset(r: nat): nat
    requires r < 4
  {
    if r == 0 then 0 else 8 - 2 * r
  }

  lemma {:induction false} LayoutOf(i: nat, q: nat, r: nat)
    requires i == 4 * q + r && r < 4
    ensures FirstByte(i) == GroupByte(q, r)
    ensures BitOffset(i) == GroupOffset(r)
  {}

  /** Writing a register changes no other one, not even those it shares a byte with. */
  lemma {:induction false} GetPutOther(data: seq<Byte>, i: nat, v: bv8, k: nat)
    requires InRange(data, i) && InRange(data, k) && k != i && v < 64
    ensures GetBits(PutBits(data, i, v), k) == GetBits(data, k)
  {
    var b, o, c, ok := FirstByte(i), BitOffset(i), FirstByte(k), BitOffset(k);
    var cur := Window(data, b);
    var data' := PutBits(data, i, v);
    Layout(i, k);
    WindowIsPair(data, b);
    WindowIsPair(data, c);
    WindowIsPair(data', c);
    StoreIsPair(data, b, Splice(cur, o, v));
    if c == b {
      SpliceSameByte(cur, o, ok, v);
      if b + 1 == |data| {
        SpliceInByte(cur, o, v);
      }
    } else if c == b + 1 {
      SpliceNextByte(cur, o, ok, v, if c + 1 < |data| then data[c + 1] else 0);
    } else if c + 1 == b {
      SplicePreviousByte(cur, o, ok, v, data[c]);
    }
  }

  lemma {:induction false} StoreUnchanged(data: seq<Byte>, b: nat)
    requires b < |data|
    ensures StoreWindow(data, b, Window(data, b)) == data
  {
    WindowIsPair(data, b);
    hide Window, Pair;
  }

  /** Writing back what is there changes no byte. */
  lemma {:induction false} PutGet(data: seq<Byte>, i: nat)
    requires InRange(data, i)
    ensures GetBits(data, i) < 64 && PutBits(data, i, GetBits(data, i)) == data
  {
    Fits(data, i);
    hide FirstByte, BitOffset, Field, Splice, StoreWindow, Window;
    SpliceSame(Window(data, FirstByte(i)), BitOffset(i));
    StoreUnchanged(data, FirstByte(i));
  }

  // ----- the packed bytes as a sequence of register values -----

  lemma {:induction false} Narrow(v: nat)
    requires v < 64
    ensures (v as bv8) < 64 && (v as bv8) as nat == v
  {}

  function GetReg(data: seq<Byte>, i: nat): (v: nat)
    requires FirstByte(i) < |data|
    ensures v < 64
  {
    GetBits(data, i) as nat
  }

  function PutReg(data: seq<Byte>, i: nat, v: nat): (data': seq<Byte>)
    requires FirstByte(i) < |data| && v < 64
    ensures |data'| == |data|
  {
    PutBits(data, i, v as bv8)
  }

  predicate Holds(data: seq<Byte>, size: nat) {
    |data| == PackedLength(size)
  }

  lemma {:induction false} HoldsInRange(data: seq<Byte>, size: nat, i: nat)
    requires Holds(data, size) && i < size
    ensures InRange(data, i) && FirstByte(i) < |data|
  {}

  function Unpack(data: seq<Byte>, size: nat): (regs: seq<nat>)
    requires Holds(data, size)
    ensures |regs| == size && forall i | 0 <= i < size :: regs[i] < 64
  {
    seq(size, i requires 0 <= i < size => (HoldsInRange(data, size, i); GetReg(data, i)))
  }

  /** Packed registers refine a sequence: writing register i is a sequence update. */
  lemma {:induction false} UnpackPut(data: seq<Byte>, size: nat, i: nat, v: nat)
    requires Holds(data, size) && i < size && v < 64
    ensures InRange(data, i) && Unpack(PutReg(data, i, v), size) == Unpack(data, size)[i := v]
  {
    var data' := PutReg(data, i, v);
    HoldsInRange(data, size, i);
    Narrow(v);
    hide GetBits, PutBits;
    forall k | 0 <= k < size ensures Unpack(data', size)[k] == if k == i then v else Unpack(data, size)[k] {
      HoldsInRange(data, size, k);
      if k == i {
        GetPutSame(data, i, v as bv8);
      } else {
        GetPutOther(data, i, v as bv8, k);
      }
    }
  }

  lemma {:induction false} UnpackZeros(data: seq<Byte>, size: nat)
    requires Holds(data, size) && forall b | 0 <= b < |data| :: data[b] == 0
    ensures Unpack(data, size) == seq(size, i => 0)
  {
    forall i | 0 <= i < size ensures Unpack(data, size)[i] == 0 {
      HoldsInRange(data, size, i);
      ZeroField(BitOffset(i));
    }
  }

  lemma {:induction false} ZeroField(o: nat)
    requires o < 8
    ensures Field(0, o) as nat == 0
  {}

  /** Three bytes are determined by the four registers in them. */
  lemma {:induction false} GroupDetermines(a: bv8, b: bv8, c: bv8, a': bv8, b': bv8, c': bv8, x: bv8, x': bv8)
    requires Field(Pair(a, b), 0) == Field(Pair(a', b'), 0) && Field(Pair(a, b), 6) == Field(Pair(a', b'), 6)
    requires Field(Pair(b, c), 4) == Field(Pair(b', c'), 4) && Field(Pair(c, x), 2) == Field(Pair(c', x'), 2)
    ensures a == a' && b == b' && c == c'
  {}

  lemma {:induction false} RegAt(data: seq<Byte>, size: nat, q: nat, r: nat)
    requires Holds(data, size) && 4 * q + r < size && r < 4
    ensures FirstByte(4 * q + r) == GroupByte(q, r) < |data|
    ensures Unpack(data, size)[4 * q + r] as int == Field(Window(data, FirstByte(4 * q + r)), GroupOffset(r)) as nat
  {
    HoldsInRange(data, size, 4 * q + r);
    LayoutOf(4 * q + r, q, r);
  }

  lemma {:induction false} NatInjective(a: bv8, b: bv8)
    requires a as nat == b as nat
    ensures a == b
  {}

  /** When the last group is full, as for every power of two from 4 on, the registers determine
      the bytes: two sketches with the same registers are shipped as the same bytes. */
  lemma {:induction false} UnpackInjective(d: seq<Byte>, e: seq<Byte>, size: nat)
    requires size % 4 == 0 && Holds(d, size) && Holds(e, size)
    requires Unpack(d, size) == Unpack(e, size)
    ensures d == e
  {
    assert |d| == |e|;
    hide Unpack, Holds;
    forall j | 0 <= j < |d| ensures d[j] == e[j] {
      var q, r := j / 3, j % 3;
      SameGroup(d, e, size, q);
      assert d[j] == d[3 * q..3 * q + 3][r] && e[j] == e[3 * q..3 * q + 3][r];
    }
  }

  lemma {:induction false} PairAt(data: seq<Byte>, b: nat)
    requires b < |data|
    ensures Window(data, b) == Pair(data[b], if b + 1 < |data| then data[b + 1] else 0)
  {}

  lemma {:induction false} GroupPlaces(q: nat)
    ensures GroupByte(q, 0) == GroupByte(q, 1) == 3 * q && GroupByte(q, 2) == 3 * q + 1 && GroupByte(q, 3) == 3 * q + 2
    ensures GroupOffset(0) == 0 && GroupOffset(1) == 6 && GroupOffset(2) == 4 && GroupOffset(3) == 2
  {}

  lemma {:induction false} FullGroups(size: nat, q: nat)
    requires size % 4 == 0 && 3 * q < PackedLength(size)
    ensures 3 * q + 2 < PackedLength(size) && 4 * q + 3 < size
  {
    assert size == 4 * (size / 4);
    assert PackedLength(size) == 3 * (size / 4);
  }

  lemma {:induction false} SliceOfThree(d: seq<Byte>, e: seq<Byte>, b: nat)
    requires |d| == |e| && b + 2 < |d| && d[b] == e[b] && d[b + 1] == e[b + 1] && d[b + 2] == e[b + 2]
    ensures d[b..b + 3] == e[b..b + 3]
  {}

  lemma {:induction false} SameGroup(d: seq<Byte>, e: seq<Byte>, size: nat, q: nat)
    requires size % 4 == 0 && Holds(d, size) && Holds(e, size) && 3 * q < |d|
    requires Unpack(d, size) == Unpack(e, size)
    ensures 3 * q + 2 < |d| && d[3 * q..3 * q + 3] == e[3 * q..3 * q + 3]
  {
    FullGroups(size, q);
    var b := 3 * q;
    hide *;
    PairAt(d, b); PairAt(d, b + 1); PairAt(d, b + 2);
    PairAt(e, b); PairAt(e, b + 1); PairAt(e, b + 2);
    GroupPlaces(q);
    SameField(d, e, size, q, 0); SameField(d, e, size, q, 1); SameField(d, e, size, q, 2); SameField(d, e, size, q, 3);
    GroupDetermines(d[b], d[b + 1], d[b + 2], e[b], e[b + 1], e[b + 2],
                    if b + 3 < |d| then d[b + 3] else 0, if b + 3 < |d| then e[b + 3] else 0);
    SliceOfThree(d, e, b);
  }

  lemma {:induction false} SameField(d: seq<Byte>, e: seq<Byte>, size: nat, q: nat, r: nat)
    requires Holds(d, size) && Holds(e, size) && 4 * q + r < size && r < 4
    requires Unpack(d, size) == Unpack(e, size)
    ensures GroupByte(q, r) < |d|
    ensures Field(Window(d, GroupByte(q, r)), GroupOffset(r))
         == Field(Window(e, GroupByte(q, r)), GroupOffset(r))
  {
    RegAt(d, size, q, r);
    RegAt(e, size, q, r);
    NatInjective(Field(Window(d, FirstByte(4 * q + r)), GroupOffset(r)),
                 Field(Window(e, FirstByte(4 * q + r)), GroupOffset(r)));
  }
}
