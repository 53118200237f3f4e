/** The period of the checksum register: clocked without input from the state left by one error,
    it comes back after 32767 clocks and not before. So two bit errors cancel exactly when they
    are a multiple of 32767 bits apart. */
module Period {
  import opened Crc16

  /** The trace of a single error, n clocks later. */
  function Power(n: nat): Reg { Clock(ONE, n) }

  /** The state that superposes, for every bit i set in the k lowest bits of v, u unclocked i times. */
  function Combine(u: Reg, v: Reg, k: nat): Reg
    decreases k
  {
    if k == 0 then ZERO else Add(if Low(v) then u else ZERO, Combine(Unshift(u), Half(v), k - 1))
  }

  lemma {:induction false} ShiftCombine(u: Reg, v: Reg, k: nat)
    ensures Shift(Combine(u, v, k)) == Combine(Shift(u), v, k)
    decreases k
  {
    hide Add, Shift, Unshift, Half, Low;
    ShiftZero();
    if k > 0 {
      var rest := Combine(Unshift(u), Half(v), k - 1);
      ShiftLinear(if Low(v) then u else ZERO, rest);
      ShiftCombine(Unshift(u), Half(v), k - 1);
      ShiftInverse(u);
    }
  }

  lemma {:induction false} ClockCombine(u: Reg, v: Reg, k: nat, n: nat)
    ensures Clock(Combine(u, v, k), n) == Combine(Clock(u, n), v, k)
    decreases n
  {
    hide Shift, Combine;
    if n > 0 {
      ClockCombine(u, v, k, n - 1);
      ShiftCombine(Clock(u, n - 1), v, k);
    }
  }

  /** Clocking a word k times is superposing its bits, each with the trace of its own error. */
  lemma {:induction false} ClockSuperposes(v: Reg, k: nat)
    ensures Clock(v, k) == Add(Combine(Power(k), v, k), WordRest(v, k))
    decreases k
  {
    hide Add, Shift, Unshift, Half, Low, Inject, Even;
    if k == 0 {
      AddLaws(v, ZERO);
    } else {
      ClockCons(v, k - 1);
      EvenPart(v);
      ShiftLinear(Inject(Low(v)), Even(v));
      ShiftEven(v);
      ClockLinear(Shift(Inject(Low(v))), Half(v), k - 1);
      ClockSuperposes(Half(v), k - 1);
      ErrorTrace(Low(v), k);
      ShiftInverse(Power(k - 1));
      AddAssociative(if Low(v) then Power(k) else ZERO, Combine(Power(k - 1), Half(v), k - 1), WordRest(v, k));
    }
  }

  lemma ErrorTrace(b: bool, k: nat)
    requires k > 0
    ensures Clock(Shift(Inject(b)), k - 1) == if b then Power(k) else ZERO
  {
    hide Shift;
    ClockCons(Inject(b), k - 1);
    ClockZero(ZERO, k);
  }

  /** From the sixteenth clock on, clocking a word is multiplying it with the trace of one error. */
  lemma ClockIsCombine(v: Reg, m: nat)
    requires m >= 16
    ensures Clock(v, m) == Combine(Power(m), v, 16)
  {
    hide Add, Clock, Combine, WordRest;
    ClockPlus(v, 16, m - 16);
    ClockSuperposes(v, 16);
    NoRest(v);
    AddLaws(Combine(Power(16), v, 16), ZERO);
    ClockCombine(Power(16), v, 16, m - 16);
    ClockPlus(ONE, 16, m - 16);
  }

  /** So traces multiply. */
  lemma PowerPlus(m: nat, n: nat)
    requires m >= 16
    ensures Power(m + n) == Combine(Power(m), Power(n), 16)
  {
    hide Clock, Combine;
    ClockPlus(ONE, n, m);
    ClockIsCombine(Power(n), m);
  }

  lemma Doubling(n: nat, p: Reg, q: Reg)
    requires n >= 16 && Power(n) == p && Product(p, p) == q
    ensures Power(2 * n) == q
  {
    hide Combine, Clock, Product;
    PowerPlus(n, n);
    CombineIsProduct(p, p);
  }

  // ---- Computing with concrete words ----

  function Four(u: Reg, v: Reg, rest: Reg): Reg {
    var u1 := Unshift(u);
    var u2 := Unshift(u1);
    var v1 := Half(v);
    var v2 := Half(v1);
    Add(if Low(v) then u else ZERO, Add(if Low(v1) then u1 else ZERO,
    Add(if Low(v2) then u2 else ZERO, Add(if Low(Half(v2)) then Unshift(u2) else ZERO, rest))))
  }

  function Back4(u: Reg): Reg { Unshift(Unshift(Unshift(Unshift(u)))) }

  function Drop4(v: Reg): Reg { Half(Half(Half(Half(v)))) }

  function Product(u: Reg, v: Reg): Reg {
    var u4, v4 := Back4(u), Drop4(v);
    var u8, v8 := Back4(u4), Drop4(v4);
    Four(u, v, Four(u4, v4, Four(u8, v8, Four(Back4(u8), Drop4(v8), ZERO))))
  }

  lemma CombineFour(u: Reg, v: Reg, k: nat)
    ensures Combine(u, v, k + 4) == Four(u, v, Combine(Back4(u), Drop4(v), k))
  {
    hide Add, Half, Low, Unshift;
    var u1 := Unshift(u);
    var u2 := Unshift(u1);
    var v1 := Half(v);
    var v2 := Half(v1);
    assert Combine(u2, v2, k + 2) == Add(if Low(v2) then u2 else ZERO, Combine(Unshift(u2), Half(v2), k + 1));
    assert Combine(u1, v1, k + 3) == Add(if Low(v1) then u1 else ZERO, Combine(u2, v2, k + 2));
  }

  lemma CombineIsProduct(u: Reg, v: Reg)
    ensures Combine(u, v, 16) == Product(u, v)
  {
    var u4, v4 := Back4(u), Drop4(v);
    var u8, v8 := Back4(u4), Drop4(v4);
    CombineFour(u, v, 12);
    CombineFour(u4, v4, 8);
    CombineFour(u8, v8, 4);
    CombineFour(Back4(u8), Drop4(v8), 0);
    assert Combine(Back4(Back4(u8)), Drop4(Drop4(v8)), 0) == ZERO;
    hide Combine, Four, Back4, Drop4;
  }

  // Squares, one at a time so that each is a single small computation.
  lemma Square16() ensures Product(Reg(0x9001), Reg(0x9001)) == Reg(0xFC01) {}
  lemma Square32() ensures Product(Reg(0xFC01), Reg(0xFC01)) == Reg(0xCCC1) {}
  lemma Square64() ensures Product(Reg(0xCCC1), Reg(0xCCC1)) == Reg(0x90C1) {}
  lemma Square128() ensures Product(Reg(0x90C1), Reg(0x90C1)) == Reg(0xAC01) {}
  lemma Square256() ensures Product(Reg(0xAC01), Reg(0xAC01)) == Reg(0xF0C1) {}
  lemma Square512() ensures Product(Reg(0xF0C1), Reg(0xF0C1)) == Reg(0x9C01) {}
  lemma Square1024() ensures Product(Reg(0x9C01), Reg(0x9C01)) == Reg(0xFCC1) {}
  lemma Square2048() ensures Product(Reg(0xFCC1), Reg(0xFCC1)) == Reg(0x9CC1) {}
  lemma Square4096() ensures Product(Reg(0x9CC1), Reg(0x9CC1)) == Reg(0xACC1) {}
  lemma Square8192() ensures Product(Reg(0xACC1), Reg(0xACC1)) == Reg(0xA0C1) {}
  lemma Square16384() ensures Product(Reg(0xA0C1), Reg(0xA0C1)) == Reg(0xA001) {}

  /** Powers at 16 times a power of two. The exponents stay symbolic (n is 16) so that nothing
      is ever clocked thousands of times. */
  lemma Power16(n: nat)
    requires n == 16
    ensures Power(n) == Reg(0x9001)
  {
    assert Clock(ONE, 4) == Reg(0xCC01);
    assert Clock(ONE, 8) == Reg(0xC0C1);
    assert Clock(ONE, 12) == Reg(0xC00D);
  }

  lemma PowersTo4096(n: nat)
    requires n == 16
    ensures Power(1 * n) == Reg(0x9001)
    ensures Power(2 * n) == Reg(0xFC01)
    ensures Power(4 * n) == Reg(0xCCC1)
    ensures Power(8 * n) == Reg(0x90C1)
    ensures Power(16 * n) == Reg(0xAC01)
    ensures Power(32 * n) == Reg(0xF0C1)
    ensures Power(64 * n) == Reg(0x9C01)
    ensures Power(128 * n) == Reg(0xFCC1)
    ensures Power(256 * n) == Reg(0x9CC1)
  {
    hide Power, Product;
    Power16(n);
    Square16();
    Doubling(1 * n, Reg(0x9001), Reg(0xFC01));
    Square32();
    Doubling(2 * n, Reg(0xFC01), Reg(0xCCC1));
    Square64();
    Doubling(4 * n, Reg(0xCCC1), Reg(0x90C1));
    Square128();
    Doubling(8 * n, Reg(0x90C1), Reg(0xAC01));
    Square256();
    Doubling(16 * n, Reg(0xAC01), Reg(0xF0C1));
    Square512();
    Doubling(32 * n, Reg(0xF0C1), Reg(0x9C01));
    Square1024();
    Doubling(64 * n, Reg(0x9C01), Reg(0xFCC1));
    Square2048();
    Doubling(128 * n, Reg(0xFCC1), Reg(0x9CC1));
  }

  lemma Times(m: nat, n: nat, p: Reg, q: Reg, r: Reg)
    requires m >= 16 && Power(m) == p && Power(n) == q && Product(p, q) == r
    ensures Power(m + n) == r
  {
    hide Combine, Clock, Product;
    PowerPlus(m, n);
    CombineIsProduct(p, q);
  }

  lemma SmallStep(m: nat, k: nat, p: Reg, q: Reg)
    requires Power(m) == p && Clock(p, k) == q
    ensures Power(m + k) == q
  {
    hide Clock;
    ClockPlus(ONE, m, k);
  }

  lemma ProductsFor4681()
    ensures Product(Reg(0xF0C1), Reg(0xCCC1)) == Reg(0x933D)
    ensures Product(Reg(0x9CC1), Reg(0x933D)) == Reg(0xB930)
  {}

  lemma Power4672(n: nat)
    requires n == 16
    ensures Power(292 * n) == Reg(0xB930)
  {
    PowersTo4096(n);
    hide Power, Product;
    ProductsFor4681();
    Times(32 * n, 4 * n, Reg(0xF0C1), Reg(0xCCC1), Reg(0x933D));
    Times(256 * n, 36 * n, Reg(0x9CC1), Reg(0x933D), Reg(0xB930));
  }

  lemma Power4681(e: nat)
    requires e == 4681
    ensures Power(e) == Reg(0xAA5D) != ONE
  {
    assert Clock(Reg(0xB930), 9) == Reg(0xAA5D);
    hide Clock, Power;
    var n := 16;
    Power4672(n);
    SmallStep(292 * n, 9, Reg(0xB930), Reg(0xAA5D));
  }

  lemma ProductsFor1057()
    ensures Product(Reg(0x9C01), Reg(0xFC01)) == Reg(0xD2C1)
  {}

  lemma Power1056(n: nat)
    requires n == 16
    ensures Power(66 * n) == Reg(0xD2C1)
  {
    PowersTo4096(n);
    hide Power, Product;
    ProductsFor1057();
    Times(64 * n, 2 * n, Reg(0x9C01), Reg(0xFC01), Reg(0xD2C1));
  }

  lemma Power1057(e: nat)
    requires e == 1057
    ensures Power(e) == Reg(0xC961) != ONE
  {
    assert Clock(Reg(0xD2C1), 1) == Reg(0xC961);
    hide Clock, Power;
    var n := 16;
    Power1056(n);
    SmallStep(66 * n, 1, Reg(0xD2C1), Reg(0xC961));
  }

  lemma ProductsFor217()
    ensures Product(Reg(0xCCC1), Reg(0x9001)) == Reg(0xC551)
    ensures Product(Reg(0x90C1), Reg(0xC551)) == Reg(0xFFF8)
  {}

  lemma Power208(n: nat)
    requires n == 16
    ensures Power(13 * n) == Reg(0xFFF8)
  {
    PowersTo4096(n);
    hide Power, Product;
    ProductsFor217();
    Times(4 * n, 1 * n, Reg(0xCCC1), Reg(0x9001), Reg(0xC551));
    Times(8 * n, 5 * n, Reg(0x90C1), Reg(0xC551), Reg(0xFFF8));
  }

  lemma Power217(e: nat)
    requires e == 217
    ensures Power(e) == Reg(0x417F) != ONE
  {
    assert Clock(Reg(0xFFF8), 9) == Reg(0x417F);
    hide Clock, Power;
    var n := 16;
    Power208(n);
    SmallStep(13 * n, 9, Reg(0xFFF8), Reg(0x417F));
  }

  lemma Power32767(e: nat)
    requires e == 32767
    ensures Power(e) == ONE
  {
    var n := 16;
    PowersTo4096(n);
    hide Power, Product, Shift, Unshift;
    Square4096();
    Doubling(256 * n, Reg(0x9CC1), Reg(0xACC1));
    Square8192();
    Doubling(512 * n, Reg(0xACC1), Reg(0xA0C1));
    Square16384();
    Doubling(1024 * n, Reg(0xA0C1), Reg(0xA001));
    assert 2048 * n == e + 1;
    LastStep(e);
  }

  lemma LastStep(e: nat)
    requires Power(e + 1) == Reg(0xA001)
    ensures Power(e) == ONE
  {
    assert Shift(ONE) == Reg(0xA001);
    ShiftInverse(ONE);
    ShiftInverse(Power(e));
    hide Shift, Unshift;
    assert Power(e + 1) == Shift(Power(e));
  }

  // ---- The exponents that bring the error back ----

  /** n clocks bring the state back. */
  predicate Returns(s: Reg, n: nat) { Clock(s, n) == s }

  lemma ReturnSum(s: Reg, m: nat, n: nat)
    requires Returns(s, m)
    ensures Returns(s, m + n) <==> Returns(s, n)
  {
    hide Clock;
    ClockPlus(s, m, n);
  }

  lemma {:induction false} ReturnMultiple(s: Reg, m: nat, k: nat)
    requires Returns(s, m)
    ensures Returns(s, m * k)
    decreases k
  {
    if k > 0 {
      hide Returns;
      ReturnMultiple(s, m, k - 1);
      ReturnSum(s, m, m * (k - 1));
      assert m + m * (k - 1) == m * k;
    } else {
      assert m * k == 0;
    }
  }

  /** Euclid by subtraction: two returning exponents have a common divisor that returns too. */
  lemma {:induction false} CommonReturn(s: Reg, a: nat, b: nat) returns (g: nat, x: nat, y: nat)
    requires a > 0 && b > 0 && Returns(s, a) && Returns(s, b)
    ensures g > 0 && a == g * x && b == g * y && Returns(s, g)
    decreases a + b
  {
    hide Returns;
    if a == b {
      g, x, y := a, 1, 1;
    } else if a > b {
      ReturnSum(s, b, a - b);
      g, x, y := CommonReturn(s, a - b, b);
      x := x + y;
    } else {
      ReturnSum(s, a, b - a);
      g, x, y := CommonReturn(s, a, b - a);
      y := x + y;
    }
  }

  // 32767 is 7 * 31 * 151: below 182, which covers its square root, nothing else divides it.

  predicate NoOtherDivisor(low: nat, high: nat)
    decreases high - low
  {
    low >= high || ((32767 % (low + 2) == 0 ==> low + 2 in {7, 31, 151}) && NoOtherDivisor(low + 1, high))
  }

  lemma {:induction false} NoOtherDivisorIn(d: nat, low: nat, high: nat)
    requires NoOtherDivisor(low, high) && low + 2 <= d < high + 2
    ensures 32767 % d == 0 ==> d in {7, 31, 151}
    decreases high - low
  {
    if low + 2 < d {
      NoOtherDivisorIn(d, low + 1, high);
    }
  }

  lemma DivisorBelow62(d: nat)
    requires 2 <= d < 62
    ensures 32767 % d == 0 ==> d in {7, 31, 151}
  {
    if d < 12 {
      assert NoOtherDivisor(0, 10);
      NoOtherDivisorIn(d, 0, 10);
    } else if d < 22 {
      assert NoOtherDivisor(10, 20);
      NoOtherDivisorIn(d, 10, 20);
    } else if d < 32 {
      assert NoOtherDivisor(20, 30);
      NoOtherDivisorIn(d, 20, 30);
    } else if d < 42 {
      assert NoOtherDivisor(30, 40);
      NoOtherDivisorIn(d, 30, 40);
    } else if d < 52 {
      assert NoOtherDivisor(40, 50);
      NoOtherDivisorIn(d, 40, 50);
    } else {
      assert NoOtherDivisor(50, 60);
      NoOtherDivisorIn(d, 50, 60);
    }
  }

  lemma DivisorBelow122(d: nat)
    requires 62 <= d < 122
    ensures 32767 % d == 0 ==> d in {7, 31, 151}
  {
    if d < 72 {
      assert NoOtherDivisor(60, 70);
      NoOtherDivisorIn(d, 60, 70);
    } else if d < 82 {
      assert NoOtherDivisor(70, 80);
      NoOtherDivisorIn(d, 70, 80);
    } else if d < 92 {
      assert NoOtherDivisor(80, 90);
      NoOtherDivisorIn(d, 80, 90);
    } else if d < 102 {
      assert NoOtherDivisor(90, 100);
      NoOtherDivisorIn(d, 90, 100);
    } else if d < 112 {
      assert NoOtherDivisor(100, 110);
      NoOtherDivisorIn(d, 100, 110);
    } else {
      assert NoOtherDivisor(110, 120);
      NoOtherDivisorIn(d, 110, 120);
    }
  }

  lemma DivisorBelow182(d: nat)
    requires 122 <= d < 182
    ensures 32767 % d == 0 ==> d in {7, 31, 151}
  {
    if d < 132 {
      assert NoOtherDivisor(120, 130);
      NoOtherDivisorIn(d, 120, 130);
    } else if d < 142 {
      assert NoOtherDivisor(130, 140);
      NoOtherDivisorIn(d, 130, 140);
    } else if d < 152 {
      assert NoOtherDivisor(140, 150);
      NoOtherDivisorIn(d, 140, 150);
    } else if d < 162 {
      assert NoOtherDivisor(150, 160);
      NoOtherDivisorIn(d, 150, 160);
    } else if d < 172 {
      assert NoOtherDivisor(160, 170);
      NoOtherDivisorIn(d, 160, 170);
    } else {
      assert NoOtherDivisor(170, 180);
      NoOtherDivisorIn(d, 170, 180);
    }
  }

  lemma SmallDivisor(d: nat, c: nat)
    requires d * c == 32767 && 2 <= d <= 181
    ensures (d == 7 && c == 4681) || (d == 31 && c == 1057) || (d == 151 && c == 217)
  {
    DivisorRemainder(d, c);
    if d < 62 { DivisorBelow62(d); } else if d < 122 { DivisorBelow122(d); } else { DivisorBelow182(d); }
    if d == 7 {
      assert 7 * c == 32767;
    } else if d == 31 {
      assert 31 * c == 32767;
    } else {
      assert 151 * c == 32767;
    }
  }

  lemma DivisorRemainder(d: nat, c: nat)
    requires d > 0
    ensures (d * c) % d == 0
  {
    var x := d * c;
    var q, r := x / d, x % d;
    assert d * (c - q) == r;
    if c - q >= 1 {
      AtLeast(d, c - q);
    } else if c - q <= -1 {
      AtLeast(d, q - c);
    }
  }

  lemma AtLeast(d: nat, k: nat)
    requires k >= 1
    ensures d * k >= d
  {}

  lemma AtLeastProduct(g: nat, y: nat, k: nat)
    requires g >= k && y >= k
    ensures g * y >= k * k
  {
    Monotone(k, k, y);
    Monotone(y, k, g);
  }

  lemma Monotone(a: nat, b: nat, c: nat)
    requires b <= c
    ensures a * b <= a * c
  {}

  lemma ProductAtLeast(g: nat, y: nat)
    requires y >= 182 && g * y < 182 * 182
    ensures g < 182
  {
    if g >= 182 {
      AtLeastProduct(g, y, 182);
    }
  }

  lemma ProperDivisor(g: nat, y: nat) returns (q: nat, e: nat)
    requires g * y == 32767 && y >= 2
    ensures g * q == e && (e == 4681 || e == 1057 || e == 217)
  {
    if y <= 181 {
      SmallDivisor(y, g);
      q, e := 1, g;
    } else if g == 1 {
      q, e := 217, 217;
    } else {
      ProductAtLeast(g, y);
      SmallDivisor(g, y);
      if g == 7 { q, e := 31, 217; } else if g == 31 { q, e := 7, 217; } else { q, e := 7, 1057; }
    }
  }

  lemma SmallerMultiple(g: nat, x: nat, y: nat)
    requires 0 < g * x < g * y
    ensures y >= 2
  {}

  /** Every state comes back after 32767 clocks. */
  lemma AllReturn(s: Reg, e: nat)
    requires e == 32767
    ensures Returns(s, e)
  {
    hide Clock, Combine;
    Power32767(e);
    ClockPlus(ONE, e, 16);
    ClockIsCombine(s, e + 16);
    ClockIsCombine(s, 16);
    ClockPlus(s, e, 16);
    ClockInjective(Clock(s, e), s, 16);
  }

  /** A state that does not come back after 4681, 1057 or 217 clocks, the largest proper divisors,
      comes back exactly every 32767 clocks. */
  lemma ReturnsIff(s: Reg, n: nat)
    requires forall e: nat :: e == 4681 || e == 1057 || e == 217 ==> !Returns(s, e)
    ensures Returns(s, n) <==> n % 32767 == 0
  {
    hide Returns;
    var period := 32767;
    AllReturn(s, period);
    var r, k := n % period, n / period;
    ReturnMultiple(s, period, k);
    ReturnSum(s, period * k, r);
    assert n == period * k + r;
    if r == 0 {
      ReturnsAtOnce(s, r);
    } else if Returns(s, r) {
      var g, x, y := CommonReturn(s, r, period);
      SmallerMultiple(g, x, y);
      var q, e := ProperDivisor(g, y);
      ReturnMultiple(s, g, q);
    }
  }

  lemma ReturnsAtOnce(s: Reg, n: nat)
    requires n == 0
    ensures Returns(s, n)
  {}

  /** The trace of an error comes back to where it started exactly every 32767 clocks. */
  lemma PeriodExact(n: nat)
    ensures Power(n) == ONE <==> n % 32767 == 0
  {
    forall e: nat | e == 4681 || e == 1057 || e == 217
      ensures !Returns(ONE, e)
    {
      hide Clock;
      if e == 4681 { Power4681(e); } else if e == 1057 { Power1057(e); } else { Power217(e); }
    }
    hide Clock;
    ReturnsIff(ONE, n);
  }

  // ---- The seed ----

  const SEED := Reg(0xFFFF)

  lemma SeedProducts()
    ensures Product(Reg(0xAA5D), SEED) == Reg(0x9185)
    ensures Product(Reg(0xC961), SEED) == Reg(0x0CA0)
    ensures Product(Reg(0x417F), SEED) == Reg(0xD4B2)
  {}

  lemma SeedClocked(e: nat, p: Reg, q: Reg)
    requires e >= 16 && Power(e) == p && Product(p, SEED) == q
    ensures Clock(SEED, e) == q
  {
    hide Clock, Combine, Product;
    ClockIsCombine(SEED, e);
    CombineIsProduct(p, SEED);
  }

  /** So does the register's initial state, all ones. */
  lemma SeedPeriodExact(n: nat)
    ensures Clock(SEED, n) == SEED <==> n % 32767 == 0
  {
    SeedProducts();
    hide Product, Power;
    forall e: nat | e == 4681 || e == 1057 || e == 217
      ensures !Returns(SEED, e)
    {
      hide Clock;
      if e == 4681 {
        Power4681(e);
        SeedClocked(e, Reg(0xAA5D), Reg(0x9185));
      } else if e == 1057 {
        Power1057(e);
        SeedClocked(e, Reg(0xC961), Reg(0x0CA0));
      } else {
        Power217(e);
        SeedClocked(e, Reg(0x417F), Reg(0xD4B2));
      }
    }
    hide Clock;
    ReturnsIff(SEED, n);
  }
}
