/** From a divider voltage to a temperature: three truncating divisions and an interpolated search
    in the thermistor's resistance table. Temperatures are in hundredths of a degree. */
module Thermistor {
  import opened Arithmetic

  /** table[k] is the resistance at offset + k degrees. */
  datatype Ntc = Ntc(parallel: int32, reference: int32, voltageRef: int32, table: seq<int32>, offset: int32, max: int32)

  /** Division truncates toward zero. */
  function Quotient(a: int, b: int): int
    requires b != 0
  {
    if (a >= 0) == (b > 0) then Abs(a) / Abs(b) else -(Abs(a) / Abs(b))
  }

  function Abs(x: int): nat { if x < 0 then -x else x }

  predicate Decreasing(table: seq<int>) {
    forall j, k :: 0 <= j < k < |table| ==> table[j] > table[k]
  }

  /** A table that covers its range, in the 16 bits a temperature has. */
  predicate Usable(ntc: Ntc) {
    && -327 <= ntc.offset <= ntc.max <= 327
    && ntc.max - ntc.offset <= |ntc.table|
    && Decreasing(ntc.table[..ntc.max - ntc.offset])
  }

  /** The interpolation multiplies the way from one entry to the next by 1000 in 32 bits. */
  predicate Interpolable(ntc: Ntc)
    requires Usable(ntc)
  {
    forall k :: 0 < k < Size(ntc) ==> (ntc.table[k - 1] as int) - (ntc.table[k] as int) <= 2147484
  }

  /** The entries the search looks at: the last one of the source's table is not among them. */
  function Size(ntc: Ntc): nat
    requires Usable(ntc)
  {
    ntc.max - ntc.offset
  }

  // ---- The search ----

  /** The first entry from i on that does not exceed the resistance. */
  function Position(ntc: Ntc, r: int, i: nat): (k: nat)
    requires Usable(ntc) && i <= Size(ntc)
    ensures i <= k <= Size(ntc)
    ensures forall j :: i <= j < k ==> ntc.table[j] > r
    ensures k < Size(ntc) ==> ntc.table[k] <= r
    decreases Size(ntc) - i
  {
    if i == Size(ntc) || ntc.table[i] <= r then i else Position(ntc, r, i + 1)
  }

  /** Hundredths of the way from an entry down to the next warmer one. */
  function Fraction(r: int, low: int, high: int): (f: nat)
    requires low <= r < high
    ensures f <= 99
  {
    FractionBound(r - low, high - low);
    (r - low) * 1000 / (high - low) / 10
  }

  lemma FractionBound(a: nat, b: nat)
    requires a < b
    ensures 0 <= a * 1000 / b <= 999
  {
    var q := a * 1000 / b;
    QuotientBounds(a * 1000, b);
    if q >= 1000 {
      TimesOrdered(1000, q, b);
    }
  }

  /** The temperature of a resistance. */
  function Temperature(ntc: Ntc, r: int): int
    requires Usable(ntc) && r >= 0
  {
    var k := Position(ntc, r, 0);
    if k == Size(ntc) then 100 * ntc.max
    else if k == 0 then 100 * ntc.offset
    else 100 * (k + ntc.offset) - Fraction(r, ntc.table[k], ntc.table[k - 1])
  }

  method FindTemp(ntc: Ntc, resistance: int32) returns (temp: int)
    requires Usable(ntc) && Interpolable(ntc)
    ensures temp == if resistance < 0 then ntc.offset - 1 else Temperature(ntc, resistance)
  {
    if resistance < 0 {
      return ntc.offset - 1;
    }
    hide Fraction, Decreasing;
    var size := ntc.max - ntc.offset;
    for i := 0 to size
      invariant Position(ntc, resistance, 0) == Position(ntc, resistance, i)
      invariant i > 0 ==> ntc.table[i - 1] > resistance
    {
      if ntc.table[i] == resistance {
        if i > 0 {
          ZeroFraction(resistance, ntc.table[i - 1]);
        }
        return (i + ntc.offset) * 100;
      } else if ntc.table[i] < resistance {
        if i == 0 {
          return ntc.offset * 100;
        }
        Interpolation(resistance, ntc.table[i], ntc.table[i - 1]);
        var delta: int32 := ntc.table[i - 1] - ntc.table[i];
        var scaled: int32 := (resistance - ntc.table[i]) * 1000;
        delta := scaled / delta / 10;
        return 100 * (i + ntc.offset) - delta;
      }
    }
    return ntc.max * 100;
  }

  /** The interpolation's intermediate values fit 32 bits. */
  lemma Interpolation(r: int, low: int, high: int)
    requires low <= r < high && high - low <= 2147484
    ensures 0 <= (r - low) * 1000 < 0x8000_0000
    ensures 0 <= (r - low) * 1000 / (high - low) <= 999
    ensures Fraction(r, low, high) == (r - low) * 1000 / (high - low) / 10
  {
    FractionBound(r - low, high - low);
  }

  lemma ZeroFraction(r: int, high: int)
    requires r < high
    ensures Fraction(r, r, high) == 0
  {
    QuotientBounds(0, high - r);
  }

  // ---- What the search computes ----

  /** Readings stay within the table's range. */
  lemma TemperatureInRange(ntc: Ntc, r: int)
    requires Usable(ntc) && r >= 0
    ensures 100 * ntc.offset <= Temperature(ntc, r) <= 100 * ntc.max
  {}

  /** Beyond the entries searched the reading is that of the end of the range. */
  lemma EndReadings(ntc: Ntc, r: int)
    requires Usable(ntc) && r >= 0 && Size(ntc) > 0
    ensures r >= ntc.table[0] ==> Temperature(ntc, r) == 100 * ntc.offset
    ensures r < ntc.table[Size(ntc) - 1] ==> Temperature(ntc, r) == 100 * ntc.max
  {
    var entries := ntc.table[..Size(ntc)];
    assert forall j :: 0 <= j < Size(ntc) ==> entries[j] >= entries[Size(ntc) - 1];
    assert forall j :: 0 <= j < Size(ntc) ==> ntc.table[j] == entries[j];
  }

  /** At an entry of the table the reading is the entry's temperature. */
  lemma ExactAtEntries(ntc: Ntc, k: nat)
    requires Usable(ntc) && k < Size(ntc) && ntc.table[k] >= 0
    ensures Temperature(ntc, ntc.table[k]) == 100 * (ntc.offset + k)
  {
    var entries := ntc.table[..Size(ntc)];
    var p := Position(ntc, ntc.table[k], 0);
    assert forall j :: 0 <= j < k ==> entries[j] > entries[k];
    if k > 0 {
      ZeroFraction(ntc.table[k], ntc.table[k - 1]);
    }
  }

  /** Between two entries it lies above the colder one's and not above the warmer one's. */
  lemma BetweenEntries(ntc: Ntc, k: nat, r: int)
    requires Usable(ntc) && 0 < k < Size(ntc) && r >= 0 && ntc.table[k] < r < ntc.table[k - 1]
    ensures 100 * (ntc.offset + k - 1) < Temperature(ntc, r) <= 100 * (ntc.offset + k)
  {
    var entries := ntc.table[..Size(ntc)];
    var p := Position(ntc, r, 0);
    assert forall j :: 0 <= j < k ==> entries[j] >= entries[k - 1];
  }

  /** The interpolation: from one entry to the next colder one, d ohms higher, the reading falls by a
      degree in proportion. It is x below the entry's temperature, where x is the number of whole
      hundredths of the way. */
  lemma Interpolated(ntc: Ntc, k: nat, r: int)
    requires Usable(ntc) && 0 < k < Size(ntc) && r >= 0 && ntc.table[k] <= r < ntc.table[k - 1]
    ensures var d := (ntc.table[k - 1] as int) - (ntc.table[k] as int);
            var x := 100 * (k + ntc.offset) - Temperature(ntc, r);
            x * d <= 100 * (r - ntc.table[k]) < (x + 1) * d
  {
    PositionBetween(ntc, k, r);
    FractionExact(r, ntc.table[k], ntc.table[k - 1]);
    hide Position, Fraction;
  }

  lemma PositionBetween(ntc: Ntc, k: nat, r: int)
    requires Usable(ntc) && 0 < k < Size(ntc) && ntc.table[k] <= r < ntc.table[k - 1]
    ensures Position(ntc, r, 0) == k
  {
    var entries := ntc.table[..Size(ntc)];
    assert forall j :: 0 <= j < k ==> entries[j] >= entries[k - 1];
    assert entries[k] == ntc.table[k];
  }

  lemma FractionExact(r: int, low: int, high: int)
    requires low <= r < high
    ensures var f, d := Fraction(r, low, high), high - low;
            f * d <= 100 * (r - low) < (f + 1) * d
  {
    TruncatedTwice(r - low, high - low);
  }

  lemma TruncatedTwice(a: nat, d: nat)
    requires a < d
    ensures var x := a * 1000 / d / 10; x * d <= 100 * a < (x + 1) * d
  {
    var q := a * 1000 / d;
    var x := q / 10;
    QuotientBounds(a * 1000, d);
    TimesOrdered(10 * x, q, d);
    TimesOrdered(q + 1, 10 * (x + 1), d);
    TimesAgain(10, x, d);
    TimesAgain(10, x + 1, d);
    TimesSum(q, 1, d);
  }

  /** The entry for the highest temperature makes no difference: tables that agree on the entries
      before it read the same. */
  lemma {:induction false} LastEntryUnused(ntc: Ntc, other: Ntc, r: int)
    requires Usable(ntc) && Usable(other) && r >= 0
    requires other == ntc.(table := other.table) && other.table[..Size(ntc)] == ntc.table[..Size(ntc)]
    ensures Temperature(other, r) == Temperature(ntc, r)
  {
    var a, b := ntc.table[..Size(ntc)], other.table[..Size(ntc)];
    assert forall k :: 0 <= k < Size(ntc) ==> ntc.table[k] == a[k] && other.table[k] == b[k];
    SamePosition(ntc, other, r, 0);
  }

  lemma {:induction false} SamePosition(ntc: Ntc, other: Ntc, r: int, i: nat)
    requires Usable(ntc) && Usable(other) && Size(other) == Size(ntc) && i <= Size(ntc)
    requires forall k :: 0 <= k < Size(ntc) ==> other.table[k] == ntc.table[k]
    ensures Position(other, r, i) == Position(ntc, r, i)
    decreases Size(ntc) - i
  {
    if i < Size(ntc) && ntc.table[i] > r {
      SamePosition(ntc, other, r, i + 1);
    }
  }

  lemma FractionMonotone(r: int, s: int, low: int, high: int)
    requires low <= r <= s < high
    ensures Fraction(r, low, high) <= Fraction(s, low, high)
  {
    DivMonotone((r - low) * 1000, (s - low) * 1000, high - low);
  }

  lemma DivMonotone(a: nat, b: nat, c: nat)
    requires a <= b && c > 0
    ensures a / c <= b / c
  {
    QuotientBounds(a, c);
    QuotientBounds(b, c);
    if a / c > b / c {
      TimesOrdered(b / c + 1, a / c, c);
    }
  }

  /** A larger resistance never reads warmer. */
  lemma WarmerIsSmaller(ntc: Ntc, r: int, s: int)
    requires Usable(ntc) && 0 <= r <= s
    ensures Temperature(ntc, r) >= Temperature(ntc, s)
  {
    var j, k := Position(ntc, r, 0), Position(ntc, s, 0);
    assert k <= j;
    if k == j && 0 < k < Size(ntc) {
      FractionMonotone(r, s, ntc.table[k], ntc.table[k - 1]);
    }
  }

  // ---- From millivolts to a temperature ----

  /** Branch current, in units the later steps expect. */
  function Current(ntc: Ntc, mv: int): int
    requires ntc.reference != 0
  {
    Quotient(1000 * (ntc.voltageRef - mv), ntc.reference)
  }

  /** Resistance of thermistor and parallel resistor together. */
  function Ratio(ntc: Ntc, mv: int): int
    requires ntc.reference != 0 && Current(ntc, mv) != 0
  {
    Quotient(1000 * mv, Current(ntc, mv))
  }

  function Resistance(ntc: Ntc, mv: int): int
    requires ntc.reference != 0 && Current(ntc, mv) != 0 && Ratio(ntc, mv) != ntc.parallel
  {
    Quotient(Ratio(ntc, mv) * ntc.parallel, ntc.parallel - Ratio(ntc, mv))
  }

  predicate Fits(x: int) { -0x8000_0000 <= x < 0x8000_0000 }

  /** No division by zero, and every intermediate value within 32 bits. */
  predicate Computable(ntc: Ntc, mv: int) {
    && ntc.reference != 0 && Fits(1000 * (ntc.voltageRef - mv)) && Fits(1000 * mv)
    && Current(ntc, mv) != 0 && Fits(Current(ntc, mv))
    && Ratio(ntc, mv) != ntc.parallel && Fits(Ratio(ntc, mv))
    && Fits(Ratio(ntc, mv) * ntc.parallel) && Fits(ntc.parallel - Ratio(ntc, mv))
    && Fits(Resistance(ntc, mv))
  }

  function Reading(ntc: Ntc, mv: int): int
    requires Usable(ntc) && ntc.reference != 0 && Current(ntc, mv) != 0 && Ratio(ntc, mv) != ntc.parallel
  {
    if Resistance(ntc, mv) < 0 then ntc.offset - 1 else Temperature(ntc, Resistance(ntc, mv))
  }

  method ConvertMvToCelsius(ntc: Ntc, mv: int) returns (temp: int)
    requires Usable(ntc) && Interpolable(ntc) && Computable(ntc, mv)
    ensures temp == Reading(ntc, mv)
  {
    var voltage: int32 := 1000 * (ntc.voltageRef - mv);
    var value: int32 := Quotient(voltage, ntc.reference);
    value := Quotient(1000 * mv, value);
    value := Quotient(value * ntc.parallel, ntc.parallel - value);
    temp := FindTemp(ntc, value);
  }

  /** The inputs the measuring circuit produces: a positive branch current, and a combined
      resistance below the parallel resistor's. */
  predicate Measurable(ntc: Ntc, mv: int) {
    && ntc.reference > 0 && ntc.parallel > 0 && mv >= 0
    && Current(ntc, mv) > 0 && Ratio(ntc, mv) < ntc.parallel
  }

  /** What the three divisions compute: the current whose voltage over the reference resistor is the
      measured one, the resistance that carries it at the measured voltage, and the resistance of the
      thermistor that makes this one together with the parallel resistor; each the largest whole
      number that does not exceed it. */
  lemma CircuitSolved(ntc: Ntc, mv: int)
    requires Measurable(ntc, mv)
    ensures var i, z, r := Current(ntc, mv), Ratio(ntc, mv), Resistance(ntc, mv);
            && i * ntc.reference <= 1000 * (ntc.voltageRef - mv) < (i + 1) * ntc.reference
            && z * i <= 1000 * mv < (z + 1) * i
            && r * ntc.parallel <= z * (r + ntc.parallel) && (r + 1) * ntc.parallel > z * (r + 1 + ntc.parallel)
  {
    var i, z, p := Current(ntc, mv), Ratio(ntc, mv), ntc.parallel;
    var v := 1000 * (ntc.voltageRef - mv);
    QuotientSign(v, ntc.reference);
    QuotientLargest(v, ntc.reference);
    QuotientLargest(1000 * mv, i);
    hide Quotient;
    ParallelSolved(z, p);
  }

  lemma QuotientLargest(a: nat, b: nat)
    requires b > 0
    ensures Quotient(a, b) >= 0 && Quotient(a, b) * b <= a < (Quotient(a, b) + 1) * b
  {
    QuotientOfNats(a, b);
    QuotientBounds(a, b);
    TimesSum(a / b, 1, b);
  }

  lemma ParallelSolved(z: nat, p: nat)
    requires z < p
    ensures var r := Quotient(z * p, p - z);
            r * p <= z * (r + p) && (r + 1) * p > z * (r + 1 + p)
  {
    TimesOrdered(0, z, p);
    QuotientLargest(z * p, p - z);
    hide Quotient;
    var r := Quotient(z * p, p - z);
    assert r * (p - z) == r * p - r * z;
    assert (r + 1) * (p - z) == (r + 1) * p - (r + 1) * z;
    TimesSum(r, p, z);
    TimesSum(r + 1, p, z);
  }

  lemma SmallerDivisor(a: nat, b: nat, c: nat)
    requires 0 < b <= c
    ensures a / c <= a / b
  {
    QuotientBounds(a, b);
    QuotientBounds(a, c);
    if a / c > a / b {
      TimesOrdered(a / b + 1, a / c, b);
      TimesOrdered(b, c, a / c);
    }
  }

  lemma QuotientOfNats(a: nat, b: nat)
    requires b > 0
    ensures Quotient(a, b) == a / b
  {}

  lemma QuotientSign(a: int, b: nat)
    requires b > 0 && Quotient(a, b) > 0
    ensures a > 0
  {}

  lemma CurrentFalls(ntc: Ntc, u: int, v: int)
    requires ntc.reference > 0 && u <= v && Current(ntc, v) > 0
    ensures Current(ntc, u) >= Current(ntc, v)
  {
    hide Quotient;
    var a, b := 1000 * (ntc.voltageRef - u), 1000 * (ntc.voltageRef - v);
    QuotientSign(b, ntc.reference);
    DivMonotone(b, a, ntc.reference);
    QuotientOfNats(a, ntc.reference);
    QuotientOfNats(b, ntc.reference);
  }

  lemma RatioGrows(ntc: Ntc, u: int, v: int)
    requires ntc.reference > 0 && 0 <= u <= v && Current(ntc, v) > 0
    ensures Current(ntc, u) > 0 && 0 <= Ratio(ntc, u) <= Ratio(ntc, v)
  {
    CurrentFalls(ntc, u, v);
    hide Quotient, Current;
    MoreOverLess(1000 * u, 1000 * v, Current(ntc, u), Current(ntc, v));
  }

  lemma MoreOverLess(a: nat, b: nat, c: nat, d: nat)
    requires a <= b && 0 < d <= c
    ensures 0 <= Quotient(a, c) <= Quotient(b, d)
  {
    hide Quotient;
    QuotientOfNats(a, c);
    QuotientOfNats(b, d);
    DivMonotone(a, b, c);
    SmallerDivisor(b, d, c);
  }

  lemma ResistanceGrows(ntc: Ntc, u: int, v: int)
    requires 0 <= u <= v && Measurable(ntc, v)
    ensures Measurable(ntc, u) && 0 <= Resistance(ntc, u) <= Resistance(ntc, v)
  {
    RatioGrows(ntc, u, v);
    ParallelMonotone(Ratio(ntc, u), Ratio(ntc, v), ntc.parallel);
  }

  lemma ParallelMonotone(a: nat, b: nat, p: nat)
    requires a <= b < p
    ensures 0 <= Quotient(a * p, p - a) <= Quotient(b * p, p - b)
  {
    TimesOrdered(a, b, p);
    MoreOverLess(a * p, b * p, p - a, p - b);
  }

  /** Higher millivolts never give a higher temperature. */
  lemma HigherVoltageNotWarmer(ntc: Ntc, u: int, v: int)
    requires Usable(ntc) && 0 <= u <= v && Measurable(ntc, v)
    ensures Measurable(ntc, u) && Reading(ntc, u) >= Reading(ntc, v)
  {
    ResistanceGrows(ntc, u, v);
    WarmerIsSmaller(ntc, Resistance(ntc, u), Resistance(ntc, v));
  }

  // ---- The firmware's circuit and table ----

  /** Ten entries to a row, from -55 to 125 degrees. */
  function Row(k: nat): (row: seq<int32>)
    requires k <= 18
    ensures |row| == if k < 18 then 10 else 1
  {
    match k
      case 0 => [486088, 456961, 429745, 404308, 380522, 358274, 337457, 317970, 299723, 282630]
      case 1 => [266612, 251597, 237516, 224306, 211910, 200272, 189343, 179075, 169425, 160353]
      case 2 => [151820, 143793, 136238, 129125, 122426, 116115, 110166, 104558, 99269, 94279]
      case 3 => [89570, 85123, 80925, 76958, 73209, 69665, 66314, 63144, 60144, 57304]
      case 4 => [54615, 52069, 49656, 47369, 45201, 43144, 41194, 39343, 37586, 35917]
      case 5 => [34333, 32827, 31396, 30036, 28743, 27513, 26342, 25228, 24167, 23158]
      case 6 => [22196, 21279, 20406, 19573, 18779, 18016, 17299, 16610, 15952, 15323]
      case 7 => [14723, 14150, 13602, 13079, 12578, 12099, 11642, 11204, 10785, 10384]
      case 8 => [10000, 9632, 9280, 8942, 8619, 8309, 8012, 7727, 7453, 7191]
      case 9 => [6940, 6698, 6467, 6244, 6030, 5825, 5628, 5438, 5256, 5081]
      case 10 => [4829, 4751, 4595, 4445, 4301, 4168, 4029, 3900, 3776, 3657]
      case 11 => [3542, 3431, 3324, 3222, 3122, 3027, 2934, 2845, 2760, 2677]
      case 12 => [2597, 2520, 2445, 2373, 2304, 2237, 2172, 2109, 2049, 1990]
      case 13 => [1934, 1879, 1826, 1775, 1725, 1678, 1631, 1586, 1543, 1501]
      case 14 => [1461, 1421, 1383, 1346, 1310, 1276, 1242, 1210, 1178, 1147]
      case 15 => [1118, 1089, 1061, 1034, 1008, 983, 958, 934, 911, 888]
      case 16 => [866, 845, 824, 804, 785, 766, 747, 729, 712, 695]
      case 17 => [679, 663, 647, 632, 618, 603, 589, 576, 563, 550]
      case _ => [538]
  }

  const NTC_10K_3380: seq<int32> := seq(181, i requires 0 <= i < 181 => Row(i / 10)[i % 10])

  const FIRMWARE := Ntc(10000, 3300, 2500, NTC_10K_3380, -55, 125)

  predicate RowFalls(row: seq<int>, next: int) {
    && |row| == 10 && 0 <= next && row[0] <= 1000000
    && row[0] > row[1] && row[1] > row[2] && row[2] > row[3] && row[3] > row[4] && row[4] > row[5]
    && row[5] > row[6] && row[6] > row[7] && row[7] > row[8] && row[8] > row[9] && row[9] > next
  }

  lemma Row0Falls() ensures RowFalls(Row(0), Row(1)[0]) {}
  lemma Row1Falls() ensures RowFalls(Row(1), Row(2)[0]) {}
  lemma Row2Falls() ensures RowFalls(Row(2), Row(3)[0]) {}
  lemma Row3Falls() ensures RowFalls(Row(3), Row(4)[0]) {}
  lemma Row4Falls() ensures RowFalls(Row(4), Row(5)[0]) {}
  lemma Row5Falls() ensures RowFalls(Row(5), Row(6)[0]) {}
  lemma Row6Falls() ensures RowFalls(Row(6), Row(7)[0]) {}
  lemma Row7Falls() ensures RowFalls(Row(7), Row(8)[0]) {}
  lemma Row8Falls() ensures RowFalls(Row(8), Row(9)[0]) {}
  lemma Row9Falls() ensures RowFalls(Row(9), Row(10)[0]) {}
  lemma Row10Falls() ensures RowFalls(Row(10), Row(11)[0]) {}
  lemma Row11Falls() ensures RowFalls(Row(11), Row(12)[0]) {}
  lemma Row12Falls() ensures RowFalls(Row(12), Row(13)[0]) {}
  lemma Row13Falls() ensures RowFalls(Row(13), Row(14)[0]) {}
  lemma Row14Falls() ensures RowFalls(Row(14), Row(15)[0]) {}
  lemma Row15Falls() ensures RowFalls(Row(15), Row(16)[0]) {}
  lemma Row16Falls() ensures RowFalls(Row(16), Row(17)[0]) {}
  lemma Row17Falls() ensures RowFalls(Row(17), Row(18)[0]) {}

  lemma RowsFall(k: nat)
    requires k < 18
    ensures RowFalls(Row(k), Row(k + 1)[0])
  {
    hide Row, RowFalls;
    match k
    case 0 => Row0Falls();
    case 1 => Row1Falls();
    case 2 => Row2Falls();
    case 3 => Row3Falls();
    case 4 => Row4Falls();
    case 5 => Row5Falls();
    case 6 => Row6Falls();
    case 7 => Row7Falls();
    case 8 => Row8Falls();
    case 9 => Row9Falls();
    case 10 => Row10Falls();
    case 11 => Row11Falls();
    case 12 => Row12Falls();
    case 13 => Row13Falls();
    case 14 => Row14Falls();
    case 15 => Row15Falls();
    case 16 => Row16Falls();
    case _ => Row17Falls();
  }

  lemma RowFallsAt(row: seq<int>, next: int, j: nat)
    requires RowFalls(row, next) && j < 10
    ensures row[j] > (if j == 9 then next else row[j + 1]) && 0 <= row[j] <= 1000000
  {
    if j < 5 {
      if j == 0 {} else if j == 1 {} else if j == 2 {} else if j == 3 {} else {}
    } else {
      if j == 5 {} else if j == 6 {} else if j == 7 {} else if j == 8 {} else {}
    }
  }

  lemma EntryFalls(i: nat)
    requires i < 180
    ensures NTC_10K_3380[i] > NTC_10K_3380[i + 1] && 0 <= NTC_10K_3380[i] <= 1000000
  {
    hide Row, RowFalls;
    var k, j := i / 10, i % 10;
    RowsFall(k);
    RowFallsAt(Row(k), Row(k + 1)[0], j);
    if j == 9 {
      assert (i + 1) / 10 == k + 1 && (i + 1) % 10 == 0;
    } else {
      assert (i + 1) / 10 == k && (i + 1) % 10 == j + 1;
    }
  }

  lemma {:induction false} EntriesFall(i: nat, j: nat)
    requires i < j <= 180
    ensures NTC_10K_3380[i] > NTC_10K_3380[j]
    decreases j
  {
    hide Row;
    EntryFalls(j - 1);
    if i < j - 1 {
      EntriesFall(i, j - 1);
    }
  }

  /** The firmware's table is strictly decreasing, so all of the above applies to it. */
  lemma FirmwareUsable()
    ensures Usable(FIRMWARE) && Interpolable(FIRMWARE)
  {
    hide Row;
    forall j, k | 0 <= j < k < 180
      ensures NTC_10K_3380[j] > NTC_10K_3380[k]
    {
      EntriesFall(j, k);
    }
    forall k | 0 <= k < 180
      ensures 0 <= NTC_10K_3380[k] <= 1000000
    {
      EntryFalls(k);
    }
  }

  /** The firmware's circuit is measurable up to 1879 mV and no further, */
  lemma FirmwareRange(mv: int)
    requires mv >= 0
    ensures Measurable(FIRMWARE, mv) <==> mv <= 1879
  {
    hide Row;
    AtTheLimit();
    if mv <= 1879 {
      RatioGrows(FIRMWARE, mv, 1879);
    } else if Current(FIRMWARE, mv) > 0 {
      RatioGrows(FIRMWARE, 1880, mv);
    }
  }

  lemma AtTheLimit()
    ensures Current(FIRMWARE, 1879) == 188 && Ratio(FIRMWARE, 1879) == 9994
    ensures Current(FIRMWARE, 1880) == 187 && Ratio(FIRMWARE, 1880) == 10053
  {
    hide Row;
  }

  /** and no intermediate value leaves 32 bits there. */
  lemma FirmwareFits(mv: int)
    requires 0 <= mv <= 1879
    ensures Computable(FIRMWARE, mv)
  {
    hide Row;
    FirmwareRange(mv);
    RatioGrows(FIRMWARE, mv, 1879);
    CurrentFalls(FIRMWARE, 0, mv);
    AtTheLimit();
    ResistanceGrows(FIRMWARE, mv, 1879);
    assert Current(FIRMWARE, 0) == 757;
    assert Resistance(FIRMWARE, 1879) == 16656666;
  }

  /** The thermistor has ten kilo-ohms at 25 degrees. */
  lemma NominalReading()
    ensures Usable(FIRMWARE) && Temperature(FIRMWARE, 10000) == 2500
  {
    hide Row;
    FirmwareUsable();
    NominalEntry();
    ExactAtEntries(FIRMWARE, 80);
  }

  lemma NominalEntry()
    ensures NTC_10K_3380[80] == 10000
  {}

  /** An open sensor reads as the coldest temperature: the circuit then stands at 1879 mV, where a
      resistance above every entry comes out. */
  lemma OpenReading()
    ensures 2500 * 10000 / (10000 + 3300) == 1879
    ensures Usable(FIRMWARE) && Reading(FIRMWARE, 1879) == -5500
  {
    hide Row;
    FirmwareUsable();
    AtTheLimit();
    assert Resistance(FIRMWARE, 1879) == 16656666;
    EntryFalls(0);
  }

  /** Above that the reading is the marker one below the offset and not a temperature at all (0.56
      degrees below zero when taken for one). */
  lemma OutOfRangeReading(mv: int)
    requires 1880 <= mv <= 2460
    ensures Usable(FIRMWARE) && Computable(FIRMWARE, mv) && Reading(FIRMWARE, mv) == -56
  {
    hide Row;
    FirmwareUsable();
    AtTheLimit();
    assert Current(FIRMWARE, 2460) == 12 && Ratio(FIRMWARE, 2460) == 205000;
    RatioGrows(FIRMWARE, mv, 2460);
    RatioGrows(FIRMWARE, 1880, mv);
    CurrentFalls(FIRMWARE, 0, mv);
    assert Current(FIRMWARE, 0) == 757;
    var ratio := Ratio(FIRMWARE, mv);
    NegativeResistance(ratio);
  }

  lemma NegativeResistance(ratio: int)
    requires 10053 <= ratio <= 205000
    ensures -0x8000_0000 <= Quotient(ratio * 10000, 10000 - ratio) < 0
  {
    DivMonotone(ratio - 10000, ratio * 10000, ratio - 10000);
    SmallerDivisor(ratio * 10000, 1, ratio - 10000);
  }
}
