/** The register store: booleans packed eight to a byte, most significant bit first, and 32-bit
    integers, both addressed through one map, with a flag per kind that records changes. */
module Registers {
  import opened Arithmetic

  const OFFSET_BOOL := 0x03E8
  const OFFSET_SHORT := 0x0BB8
  const OFFSET_INT := 0x1388
  const MAP_END := 0x176F
  const BOOL_COUNT := 128
  const INT_COUNT := 128

  const CHANGE_BOOL: bv8 := 1
  const CHANGE_INT: bv8 := 4

  /** The index of an address within its kind, or -1 outside the map. */
  function GetIndex(addr: nat): int {
    if OFFSET_BOOL <= addr < OFFSET_SHORT then addr - OFFSET_BOOL
    else if OFFSET_SHORT <= addr < OFFSET_INT then addr - OFFSET_SHORT
    else if OFFSET_INT <= addr < MAP_END then addr - OFFSET_INT
    else -1
  }

  /** Each kind of register has its addresses in a row, with indices from 0. */
  lemma AddressesInARow(i: nat)
    ensures i < 2000 ==> GetIndex(1000 + i) == i && GetIndex(3000 + i) == i
    ensures i < 999 ==> GetIndex(5000 + i) == i
    ensures i < 1000 || i >= 5999 ==> GetIndex(i) == -1
  {}

  lemma IndexShift(addr: nat, k: nat)
    requires GetIndex(addr) >= 0 && GetIndex(addr) + k < BOOL_COUNT
    ensures GetIndex(addr + k) == GetIndex(addr) + k
  {}

  function IndexByte(index: nat): nat { index / 8 }

  function IndexBit(index: nat): (p: nat)
    ensures p < 8
  {
    index % 8
  }

  function Mask(p: nat): bv8
    requires p < 8
  {
    0x80 >> p
  }

  function BitOf(b: bv8, p: nat): bool
    requires p < 8
  {
    b & Mask(p) != 0
  }

  /** The byte with one bit set or cleared. */
  function WithBit(b: bv8, p: nat, value: bool): bv8
    requires p < 8
  {
    if value then b | Mask(p) else b & !Mask(p)
  }

  lemma MaskValue(p: nat)
    requires p < 8
    ensures Mask(p) == [0x80, 0x40, 0x20, 0x10, 8, 4, 2, 1][p]
  {
    if p < 4 {
      if p == 0 {} else if p == 1 {} else if p == 2 {} else {}
    } else {
      if p == 4 {} else if p == 5 {} else if p == 6 {} else {}
    }
  }

  lemma OneBitMask(p: nat, q: nat)
    requires p < 8 && q < 8
    ensures Mask(p) != 0
    ensures p != q ==> Mask(p) & Mask(q) == 0
  {
    MaskValue(p);
    MaskValue(q);
  }

  lemma SetMaskedBit(b: bv8, m: bv8, n: bv8)
    ensures m != 0 ==> (b | m) & m != 0 && (b & !m) & m == 0
    ensures m & n == 0 ==> (b | m) & n == b & n && (b & !m) & n == b & n
  {}

  /** Writing one bit of a byte changes that bit only. */
  lemma WithBitOnly(b: bv8, p: nat, q: nat, value: bool)
    requires p < 8 && q < 8
    ensures BitOf(WithBit(b, p, value), q) == if p == q then value else BitOf(b, q)
  {
    hide Mask;
    OneBitMask(p, q);
    SetMaskedBit(b, Mask(p), Mask(q));
  }

  lemma SameBitSameByte(b: bv8, p: nat, value: bool)
    requires p < 8
    ensures WithBit(b, p, value) == b <==> BitOf(b, p) == value
  {
    MaskValue(p);
  }

  /** The booleans a block of bytes holds, in address order. */
  function Bools(bytes: seq<bv8>): (s: seq<bool>)
    ensures |s| == 8 * |bytes|
  {
    seq(8 * |bytes|, i requires 0 <= i < 8 * |bytes| => BitOf(bytes[IndexByte(i)], IndexBit(i)))
  }

  /** Eight booleans to a byte, the first in its most significant bit. */
  lemma BoolAt(bytes: seq<bv8>, index: nat)
    requires index < 8 * |bytes|
    ensures Bools(bytes)[index] == BitOf(bytes[IndexByte(index)], IndexBit(index))
    ensures Bools(bytes)[index] == (bytes[index / 8] & (0x80 >> (index % 8)) != 0)
  {}

  lemma StoreBit(bytes: seq<bv8>, index: nat, value: bool)
    requires index < 8 * |bytes|
    ensures var a := IndexByte(index);
            Bools(bytes[a := WithBit(bytes[a], IndexBit(index), value)]) == Bools(bytes)[index := value]
  {
    hide WithBit, BitOf;
    var a, p := IndexByte(index), IndexBit(index);
    var after := bytes[a := WithBit(bytes[a], p, value)];
    forall k | 0 <= k < 8 * |bytes|
      ensures Bools(after)[k] == Bools(bytes)[index := value][k]
    {
      WithBitOnly(bytes[a], p, IndexBit(k), value);
      assert IndexByte(k) == a && IndexBit(k) == p <==> k == index;
    }
  }

  /** The byte that is written, and when it differs from the one that is there. */
  lemma WriteBit(bytes: seq<bv8>, index: nat, value: bool)
    requires index < 8 * |bytes|
    ensures var a := IndexByte(index);
            var written := WithBit(bytes[a], IndexBit(index), value);
            && Bools(bytes[a := written]) == Bools(bytes)[index := value]
            && (written == bytes[a] <==> Bools(bytes)[index] == value)
  {
    hide Bools, BitOf, WithBit;
    StoreBit(bytes, index, value);
    BoolAt(bytes, index);
    SameBitSameByte(bytes[IndexByte(index)], IndexBit(index), value);
  }

  /** A stretch of a sequence replaced. */
  function Patched<T>(s: seq<T>, at: nat, block: seq<T>): (r: seq<T>)
    requires at + |block| <= |s|
    ensures |r| == |s|
    ensures forall k :: 0 <= k < |s| ==> r[k] == if at <= k < at + |block| then block[k - at] else s[k]
  {
    s[..at] + block + s[at + |block|..]
  }

  lemma PatchedNothing<T>(s: seq<T>, at: nat)
    requires at <= |s|
    ensures Patched(s, at, []) == s
  {}

  lemma PatchedSnoc<T>(s: seq<T>, at: nat, block: seq<T>, v: T)
    requires at + |block| < |s|
    ensures Patched(s, at, block)[at + |block| := v] == Patched(s, at, block + [v])
  {}

  /** One more value of the block. Its place still holds what it held before. */
  lemma PatchedNext<T>(s: seq<T>, at: nat, vet: seq<T>, i: nat)
    requires at + i < |s| && i < |vet|
    ensures Patched(s, at, vet[..i])[at + i] == s[at + i]
    ensures Patched(s, at, vet[..i])[at + i := vet[i]] == Patched(s, at, vet[..i + 1])
  {
    PatchedSnoc(s, at, vet[..i], vet[i]);
    assert vet[..i] + [vet[i]] == vet[..i + 1];
  }

  /** The flag records whether anything has changed. */
  predicate Recorded(before: seq<bool>, now: seq<bool>, flag: bv8, flagNow: bv8) {
    flagNow == if now == before then flag else flag | CHANGE_BOOL
  }

  lemma NothingRecorded(before: seq<bool>, flag: bv8)
    ensures Recorded(before, before, flag, flag)
  {}

  lemma RecordedNext(before: seq<bool>, now: seq<bool>, k: nat, v: bool, flag: bv8, flagNow: bv8)
    requires |now| == |before| && k < |now| && now[k] == before[k]
    requires Recorded(before, now, flag, flagNow)
    ensures Recorded(before, now[k := v], flag, if now[k] == v then flagNow else flagNow | CHANGE_BOOL)
  {
    if now[k] == v {
      assert now[k := v] == now;
    } else {
      assert now[k := v][k] != before[k];
      assert flag | CHANGE_BOOL | CHANGE_BOOL == flag | CHANGE_BOOL;
    }
  }

  class RegisterFile {
    const bools: array<bv8>
    const ints: array<int32>
    var changeFlag: bv8

    ghost predicate Valid()
      reads this
    {
      bools.Length == BOOL_COUNT / 8 && ints.Length == INT_COUNT
    }

    constructor ()
      ensures Valid() && fresh(bools) && fresh(ints) && changeFlag == 0
      ensures bools[..] == seq(16, _ => 0) && ints[..] == seq(INT_COUNT, _ => 0)
    {
      bools := new bv8[BOOL_COUNT / 8](_ => 0);
      ints := new int32[INT_COUNT](_ => 0);
      changeFlag := 0;
    }

    /** The booleans, by index. */
    ghost function BoolView(): (s: seq<bool>)
      requires Valid()
      reads this, bools
      ensures |s| == BOOL_COUNT
    {
      Bools(bools[..])
    }

    /** An address outside the map is ignored; an index past the array is outside the source. */
    method WriteBool(value: bool, addr: nat)
      requires Valid() && GetIndex(addr) < BOOL_COUNT
      modifies this`changeFlag, bools
      ensures GetIndex(addr) < 0 ==> BoolView() == old(BoolView()) && changeFlag == old(changeFlag)
      ensures GetIndex(addr) >= 0 ==>
                && BoolView() == old(BoolView())[GetIndex(addr) := value]
                && changeFlag == if old(BoolView())[GetIndex(addr)] == value then old(changeFlag)
                                 else old(changeFlag) | CHANGE_BOOL
    {
      var index := GetIndex(addr);
      if index < 0 {
        return;
      }
      hide Bools, WithBit;
      var a, p := IndexByte(index), IndexBit(index);
      var register := bools[a];
      var written := WithBit(register, p, value);
      ghost var before := bools[..];
      WriteBit(before, index, value);
      if register != written {
        bools[a] := written;
        changeFlag := changeFlag | CHANGE_BOOL;
      }
      assert bools[..] == before[a := written];
    }

    method ReadBool(addr: nat) returns (value: bool)
      requires Valid() && GetIndex(addr) < BOOL_COUNT
      ensures value == (GetIndex(addr) >= 0 && BoolView()[GetIndex(addr)])
    {
      var index := GetIndex(addr);
      if index < 0 {
        return false;
      }
      value := bools[IndexByte(index)] & Mask(IndexBit(index)) != 0;
    }

    /** All of the values or none: the block is refused when it does not fit. */
    method WriteBoolVet(vet: seq<bool>, addr: nat)
      requires Valid()
      modifies this`changeFlag, bools
      ensures var i := GetIndex(addr);
              BoolView() == if i < 0 || i + |vet| > BOOL_COUNT then old(BoolView())
                            else Patched(old(BoolView()), i, vet)
      ensures Recorded(old(BoolView()), BoolView(), old(changeFlag), changeFlag)
    {
      hide Bools, Patched, GetIndex, Recorded;
      ghost var before, flag := BoolView(), changeFlag;
      NothingRecorded(before, flag);
      var index := GetIndex(addr);
      if index < 0 {
        return;
      }
      if index + |vet| > BOOL_COUNT {
        return;
      }
      PatchedNothing(before, index);
      for i := 0 to |vet|
        invariant BoolView() == Patched(before, index, vet[..i])
        invariant Recorded(before, BoolView(), flag, changeFlag)
      {
        IndexShift(addr, i);
        PatchedNext(before, index, vet, i);
        RecordedNext(before, BoolView(), index + i, vet[i], flag, changeFlag);
        WriteBool(vet[i], addr + i);
      }
      assert vet[..|vet|] == vet;
    }

    method ReadBoolVet(size: nat, addr: nat) returns (vet: seq<bool>)
      requires Valid()
      ensures var i := GetIndex(addr);
              vet == if i < 0 || i + size > BOOL_COUNT then [] else BoolView()[i..i + size]
    {
      hide Bools, GetIndex;
      vet := [];
      var index := GetIndex(addr);
      if index < 0 {
        return;
      }
      if index + size > BOOL_COUNT {
        return;
      }
      for i := 0 to size
        invariant vet == BoolView()[index..index + i]
      {
        IndexShift(addr, i);
        var b := ReadBool(addr + i);
        vet := vet + [b];
      }
    }

    method WriteInt(value: int32, addr: nat)
      requires Valid() && GetIndex(addr) < INT_COUNT
      modifies this`changeFlag, ints
      ensures GetIndex(addr) < 0 ==> ints[..] == old(ints[..]) && changeFlag == old(changeFlag)
      ensures GetIndex(addr) >= 0 ==>
                && ints[..] == old(ints[..])[GetIndex(addr) := value]
                && changeFlag == if old(ints[..])[GetIndex(addr)] == value then old(changeFlag)
                                 else old(changeFlag) | CHANGE_INT
    {
      var index := GetIndex(addr);
      if index < 0 {
        return;
      }
      if ints[index] != value {
        ints[index] := value;
        changeFlag := changeFlag | CHANGE_INT;
      }
    }

    function ReadInt(addr: nat): int32
      requires Valid() && GetIndex(addr) < INT_COUNT
      reads this, ints
    {
      var index := GetIndex(addr);
      if index < 0 then 0 else ints[index]
    }
  }
}
