/** The table-driven Modbus checksum: one buffer, two buffers, and the frame check. */
module Checksum {
  import opened Crc16

  /** Sixteen consecutive entries of the table. */
  function Row(hi: nat): (row: seq<bv16>)
    requires hi < 16
    ensures |row| == 16
  {
    match hi
      case 0 => [
        0x0000, 0xC0C1, 0xC181, 0x0140, 0xC301, 0x03C0, 0x0280, 0xC241,
        0xC601, 0x06C0, 0x0780, 0xC741, 0x0500, 0xC5C1, 0xC481, 0x0440]
      case 1 => [
        0xCC01, 0x0CC0, 0x0D80, 0xCD41, 0x0F00, 0xCFC1, 0xCE81, 0x0E40,
        0x0A00, 0xCAC1, 0xCB81, 0x0B40, 0xC901, 0x09C0, 0x0880, 0xC841]
      case 2 => [
        0xD801, 0x18C0, 0x1980, 0xD941, 0x1B00, 0xDBC1, 0xDA81, 0x1A40,
        0x1E00, 0xDEC1, 0xDF81, 0x1F40, 0xDD01, 0x1DC0, 0x1C80, 0xDC41]
      case 3 => [
        0x1400, 0xD4C1, 0xD581, 0x1540, 0xD701, 0x17C0, 0x1680, 0xD641,
        0xD201, 0x12C0, 0x1380, 0xD341, 0x1100, 0xD1C1, 0xD081, 0x1040]
      case 4 => [
        0xF001, 0x30C0, 0x3180, 0xF141, 0x3300, 0xF3C1, 0xF281, 0x3240,
        0x3600, 0xF6C1, 0xF781, 0x3740, 0xF501, 0x35C0, 0x3480, 0xF441]
      case 5 => [
        0x3C00, 0xFCC1, 0xFD81, 0x3D40, 0xFF01, 0x3FC0, 0x3E80, 0xFE41,
        0xFA01, 0x3AC0, 0x3B80, 0xFB41, 0x3900, 0xF9C1, 0xF881, 0x3840]
      case 6 => [
        0x2800, 0xE8C1, 0xE981, 0x2940, 0xEB01, 0x2BC0, 0x2A80, 0xEA41,
        0xEE01, 0x2EC0, 0x2F80, 0xEF41, 0x2D00, 0xEDC1, 0xEC81, 0x2C40]
      case 7 => [
        0xE401, 0x24C0, 0x2580, 0xE541, 0x2700, 0xE7C1, 0xE681, 0x2640,
        0x2200, 0xE2C1, 0xE381, 0x2340, 0xE101, 0x21C0, 0x2080, 0xE041]
      case 8 => [
        0xA001, 0x60C0, 0x6180, 0xA141, 0x6300, 0xA3C1, 0xA281, 0x6240,
        0x6600, 0xA6C1, 0xA781, 0x6740, 0xA501, 0x65C0, 0x6480, 0xA441]
      case 9 => [
        0x6C00, 0xACC1, 0xAD81, 0x6D40, 0xAF01, 0x6FC0, 0x6E80, 0xAE41,
        0xAA01, 0x6AC0, 0x6B80, 0xAB41, 0x6900, 0xA9C1, 0xA881, 0x6840]
      case 10 => [
        0x7800, 0xB8C1, 0xB981, 0x7940, 0xBB01, 0x7BC0, 0x7A80, 0xBA41,
        0xBE01, 0x7EC0, 0x7F80, 0xBF41, 0x7D00, 0xBDC1, 0xBC81, 0x7C40]
      case 11 => [
        0xB401, 0x74C0, 0x7580, 0xB541, 0x7700, 0xB7C1, 0xB681, 0x7640,
        0x7200, 0xB2C1, 0xB381, 0x7340, 0xB101, 0x71C0, 0x7080, 0xB041]
      case 12 => [
        0x5000, 0x90C1, 0x9181, 0x5140, 0x9301, 0x53C0, 0x5280, 0x9241,
        0x9601, 0x56C0, 0x5780, 0x9741, 0x5500, 0x95C1, 0x9481, 0x5440]
      case 13 => [
        0x9C01, 0x5CC0, 0x5D80, 0x9D41, 0x5F00, 0x9FC1, 0x9E81, 0x5E40,
        0x5A00, 0x9AC1, 0x9B81, 0x5B40, 0x9901, 0x59C0, 0x5880, 0x9841]
      case 14 => [
        0x8801, 0x48C0, 0x4980, 0x8941, 0x4B00, 0x8BC1, 0x8A81, 0x4A40,
        0x4E00, 0x8EC1, 0x8F81, 0x4F40, 0x8D01, 0x4DC0, 0x4C80, 0x8C41]
      case _ => [
        0x4400, 0x84C1, 0x8581, 0x4540, 0x8701, 0x47C0, 0x4680, 0x8641,
        0x8201, 0x42C0, 0x4380, 0x8341, 0x4100, 0x81C1, 0x8081, 0x4040]
  }

  /** The 256 entries. */
  const TABLE: seq<bv16> := seq(256, i requires 0 <= i < 256 => Row(i / 16)[i % 16])

  // ---- Every entry of the table is eight clocks of the shift register ----

  predicate Entry(e: bv16, w: Reg) {
    e == ShiftWord(ShiftWord(ShiftWord(ShiftWord(ShiftWord(ShiftWord(ShiftWord(ShiftWord(w.word))))))))
  }

  function At(b: Reg, j: bv16): Reg { Reg(b.word | j) }

  predicate RowMatches(row: seq<bv16>, b: Reg) {
    && |row| == 16
    && Entry(row[0], At(b, 0)) && Entry(row[1], At(b, 1)) && Entry(row[2], At(b, 2)) && Entry(row[3], At(b, 3))
    && Entry(row[4], At(b, 4)) && Entry(row[5], At(b, 5)) && Entry(row[6], At(b, 6)) && Entry(row[7], At(b, 7))
    && Entry(row[8], At(b, 8)) && Entry(row[9], At(b, 9)) && Entry(row[10], At(b, 10)) && Entry(row[11], At(b, 11))
    && Entry(row[12], At(b, 12)) && Entry(row[13], At(b, 13)) && Entry(row[14], At(b, 14)) && Entry(row[15], At(b, 15))
  }

  lemma Row0Matches() ensures RowMatches(Row(0), Reg(0x00)) {}
  lemma Row1Matches() ensures RowMatches(Row(1), Reg(0x10)) {}
  lemma Row2Matches() ensures RowMatches(Row(2), Reg(0x20)) {}
  lemma Row3Matches() ensures RowMatches(Row(3), Reg(0x30)) {}
  lemma Row4Matches() ensures RowMatches(Row(4), Reg(0x40)) {}
  lemma Row5Matches() ensures RowMatches(Row(5), Reg(0x50)) {}
  lemma Row6Matches() ensures RowMatches(Row(6), Reg(0x60)) {}
  lemma Row7Matches() ensures RowMatches(Row(7), Reg(0x70)) {}
  lemma Row8Matches() ensures RowMatches(Row(8), Reg(0x80)) {}
  lemma Row9Matches() ensures RowMatches(Row(9), Reg(0x90)) {}
  lemma Row10Matches() ensures RowMatches(Row(10), Reg(0xA0)) {}
  lemma Row11Matches() ensures RowMatches(Row(11), Reg(0xB0)) {}
  lemma Row12Matches() ensures RowMatches(Row(12), Reg(0xC0)) {}
  lemma Row13Matches() ensures RowMatches(Row(13), Reg(0xD0)) {}
  lemma Row14Matches() ensures RowMatches(Row(14), Reg(0xE0)) {}
  lemma Row15Matches() ensures RowMatches(Row(15), Reg(0xF0)) {}

  lemma EveryRowMatches(hi: bv8)
    requires hi <= 15
    ensures RowMatches(Row(hi as int), Reg((hi as bv16) << 4))
  {
    hide Row, RowMatches;
    if hi < 8 {
      if hi == 0 { Row0Matches(); } else if hi == 1 { Row1Matches(); }
      else if hi == 2 { Row2Matches(); } else if hi == 3 { Row3Matches(); }
      else if hi == 4 { Row4Matches(); } else if hi == 5 { Row5Matches(); }
      else if hi == 6 { Row6Matches(); } else { Row7Matches(); }
    } else {
      if hi == 8 { Row8Matches(); } else if hi == 9 { Row9Matches(); }
      else if hi == 10 { Row10Matches(); } else if hi == 11 { Row11Matches(); }
      else if hi == 12 { Row12Matches(); } else if hi == 13 { Row13Matches(); }
      else if hi == 14 { Row14Matches(); } else { Row15Matches(); }
    }
  }

  lemma EntryOfRow(row: seq<bv16>, b: Reg, j: bv8)
    requires RowMatches(row, b) && j <= 15
    ensures Entry(row[j as int], At(b, j as bv16))
  {
    hide Entry, At;
    if j < 8 {
      if j == 0 {} else if j == 1 {} else if j == 2 {} else if j == 3 {}
      else if j == 4 {} else if j == 5 {} else if j == 6 {} else {}
    } else {
      if j == 8 {} else if j == 9 {} else if j == 10 {} else if j == 11 {}
      else if j == 12 {} else if j == 13 {} else if j == 14 {} else {}
    }
  }

  lemma SplitIndex(x: bv8, hi: bv8, lo: bv8)
    requires hi == x >> 4 && lo == x & 15
    ensures x as int == 16 * (hi as int) + lo as int && hi <= 15 && lo <= 15
    ensures At(Reg((hi as bv16) << 4), lo as bv16) == Reg(x as bv16)
  {}

  lemma TableEntry(x: bv8)
    ensures |TABLE| == 256 && Entry(TABLE[x as int], Reg(x as bv16))
  {
    hide Row, RowMatches, Entry, At;
    var hi, lo := x >> 4, x & 15;
    SplitIndex(x, hi, lo);
    EveryRowMatches(hi);
    EntryOfRow(Row(hi as int), Reg((hi as bv16) << 4), lo);
    var i := x as int;
    assert i / 16 == hi as int && i % 16 == lo as int;
  }

  lemma ClockTwo(w: Reg)
    ensures Clock(w, 2) == Shift(Shift(w))
  {
    hide Shift;
    assert Clock(w, 1) == Shift(Clock(w, 0));
  }

  lemma ClockEight(w: Reg)
    ensures Clock(w, 8) == Shift(Shift(Shift(Shift(Shift(Shift(Shift(Shift(w))))))))
  {
    hide Shift, Clock;
    var w2 := Shift(Shift(w));
    var w4 := Shift(Shift(w2));
    ClockTwo(w);
    ClockTwo(w2);
    ClockTwo(w4);
    ClockTwo(Shift(Shift(w4)));
    ClockPlus(w, 2, 2);
    ClockPlus(w4, 2, 2);
    ClockPlus(w, 4, 4);
  }

  /** The table is right: entry x is x clocked eight times through the shift register. */
  lemma TableCorrect(x: bv8)
    ensures |TABLE| == 256
    ensures Reg(TABLE[x as int]) == Clock(Reg(x as bv16), 8)
  {
    TableEntry(x);
    ClockEight(Reg(x as bv16));
    hide ShiftWord, Clock;
  }

  // ---- One step of the loops ----

  lemma LowByteIsQuiet(n: Reg)
    requires n.word & 0xFF == 0
    ensures Clock(n, 8) == Reg(n.word >> 8)
  {
    ClockEight(n);
  }

  lemma StepByHalves(s: Reg, n: Reg, low: Reg, high: Reg)
    requires Add(low, high) == Add(s, n)
    ensures Clock(Add(s, n), 8) == Add(Clock(low, 8), Clock(high, 8))
  {
    hide Add, Clock;
    ClockLinear(low, high, 8);
  }

  lemma HighHalf(crc: bv16)
    ensures Clock(Reg(crc & 0xFF00), 8) == Reg(crc >> 8)
  {
    hide Clock;
    HighByte(crc);
    LowByteIsQuiet(Reg(crc & 0xFF00));
  }

  /** Looking the low byte up is clocking the register eight times. */
  lemma LookupIsByteStep(crc: bv16, b: bv8, x: bv8)
    requires x as bv16 == (crc ^ (b as bv16)) & 0xFF
    ensures |TABLE| == 256
    ensures Reg((crc >> 8) ^ TABLE[x as int]) == ByteStep(Reg(crc), b)
  {
    ByteIsLow(b);
    SplitWord(crc, b as bv16, x as bv16);
    HighHalf(crc);
    TableCorrect(x);
    SumOfHalves(crc >> 8, TABLE[x as int]);
    hide Clock, Add;
    StepByHalves(Reg(crc), Reg(b as bv16), Reg(x as bv16), Reg(crc & 0xFF00));
  }

  lemma SplitWord(crc: bv16, wide: bv16, low: bv16)
    requires wide & 0xFF00 == 0 && low == (crc ^ wide) & 0xFF
    ensures Add(Reg(low), Reg(crc & 0xFF00)) == Add(Reg(crc), Reg(wide))
  {
    SplitBits(crc, wide, low);
    SumOfHalves(crc & 0xFF00, low);
    SumOfHalves(wide, crc);
    hide Add;
  }

  lemma SplitBits(crc: bv16, wide: bv16, low: bv16)
    requires wide & 0xFF00 == 0 && low == (crc ^ wide) & 0xFF
    ensures (crc & 0xFF00) ^ low == wide ^ crc
  {}

  lemma ByteIsLow(b: bv8)
    ensures (b as bv16) & 0xFF00 == 0
  {}

  lemma HighByte(crc: bv16)
    ensures (crc & 0xFF00) & 0xFF == 0 && (crc & 0xFF00) >> 8 == crc >> 8
  {}

  lemma SumOfHalves(h: bv16, t: bv16)
    ensures Reg(h ^ t) == Add(Reg(t), Reg(h))
  {}

  // ---- The three functions of the source ----

  /** The checksum of the first len bytes of a buffer. */
  method ModbusCrc16(buf: array<bv8>, len: nat) returns (crc: bv16)
    requires len <= buf.Length
    ensures crc == Crc(buf[..len])
  {
    crc := 0xFFFF;
    var left, p := len, 0;
    while left > 0
      invariant p + left == len
      invariant Reg(crc) == CrcFrom(Reg(0xFFFF), buf[..p])
    {
      hide ByteStep;
      var xor := ((buf[p] as bv16 ^ crc) & 0xFF) as bv8;
      LookupIsByteStep(crc, buf[p], xor);
      assert buf[..p + 1][..p] == buf[..p];
      p, left := p + 1, left - 1;
      crc := crc >> 8;
      crc := crc ^ TABLE[xor as int];
    }
  }

  /** The checksum of two buffers, sent one after the other. */
  method ModbusStructCrc16(buf1: array<bv8>, len1: nat, buf2: array<bv8>, len2: nat) returns (crc: bv16)
    requires len1 <= buf1.Length && len2 <= buf2.Length
    ensures crc == Crc(buf1[..len1] + buf2[..len2])
  {
    crc := 0xFFFF;
    for i := 0 to len1
      invariant Reg(crc) == CrcFrom(Reg(0xFFFF), buf1[..i])
    {
      hide ByteStep;
      var x := ((crc ^ (buf1[i] as bv16)) & 0xFF) as bv8;
      LookupIsByteStep(crc, buf1[i], x);
      assert buf1[..i + 1][..i] == buf1[..i];
      crc := (crc >> 8) ^ TABLE[x as int];
    }
    ghost var first := Reg(crc);
    for i := 0 to len2
      invariant Reg(crc) == CrcFrom(first, buf2[..i])
    {
      hide ByteStep;
      var x := ((crc ^ (buf2[i] as bv16)) & 0xFF) as bv8;
      LookupIsByteStep(crc, buf2[i], x);
      assert buf2[..i + 1][..i] == buf2[..i];
      crc := (crc >> 8) ^ TABLE[x as int];
    }
    CrcFromConcat(Reg(0xFFFF), buf1[..len1], buf2[..len2]);
  }

  /** A checksum as it stands on the wire, low byte first. */
  function Wire(crc: bv16): seq<bv8> {
    [(crc & 0xFF) as bv8, (crc >> 8) as bv8]
  }

  /** A frame carries the checksum of everything before its last two bytes. */
  predicate Accepts(frame: seq<bv8>) {
    |frame| >= 2 && frame[|frame| - 2..] == Wire(Crc(frame[..|frame| - 2]))
  }

  function Joined(low: bv8, high: bv8): bv16 { ((high as bv16) << 8) + (low as bv16) }

  lemma SplitJoined(low: bv8, high: bv8)
    ensures Joined(low, high) & 0xFF == low as bv16 && Joined(low, high) >> 8 == high as bv16
  {
    assert Joined(low, high) == ((high as bv16) << 8) | (low as bv16);
  }

  lemma JoinSplit(crc: bv16)
    ensures Joined((crc & 0xFF) as bv8, (crc >> 8) as bv8) == crc
  {
    assert Joined((crc & 0xFF) as bv8, (crc >> 8) as bv8) == ((crc >> 8) << 8) | (crc & 0xFF);
  }

  lemma JoinWire(low: bv8, high: bv8, crc: bv16)
    ensures Joined(low, high) == crc <==> [low, high] == Wire(crc)
  {
    SplitJoined(low, high);
    JoinSplit(crc);
    hide Joined;
    if [low, high] == Wire(crc) {
      assert [low, high][0] == Wire(crc)[0] && [low, high][1] == Wire(crc)[1];
    }
  }

  method CheckCrc16(buf: array<bv8>, len: nat) returns (ok: bool)
    requires 2 <= len <= buf.Length
    ensures ok <==> Accepts(buf[..len])
  {
    hide Crc;
    var crc := buf[len - 1] as bv16;
    crc := (crc << 8) + (buf[len - 2] as bv16);
    var expected := ModbusCrc16(buf, len - 2);
    assert buf[..len][..len - 2] == buf[..len - 2];
    assert buf[..len][len - 2..] == [buf[len - 2], buf[len - 1]];
    JoinWire(buf[len - 2], buf[len - 1], expected);
    ok := crc == expected;
  }
}
