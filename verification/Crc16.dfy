/** The CRC-16 shift register of section 6.2.2 of the MODBUS over Serial Line Specification and
    Implementation Guide V1.02, bit by bit, and the algebra of that register. Nothing here looks
    at the lookup table: this is the reference the table-driven code is proved against.

    The register is wrapped in a datatype, and proofs hide its five primitive operations, so that
    the solver argues from their laws instead of from sixteen separate bits. */
module Crc16 {

  datatype Reg = Reg(word: bv16)

  const ZERO := Reg(0)
  const ONE := Reg(1)
  const POLYNOMIAL := Reg(0xA001)

  // ---- Primitive operations and their laws ----

  function Add(a: Reg, b: Reg): Reg { Reg(a.word ^ b.word) }

  function Half(s: Reg): Reg { Reg(s.word >> 1) }

  function Low(s: Reg): bool { s.word & 1 == 1 }

  /** One clock of the register: shift right, and fold the polynomial in when a one falls out.
      (0xA001 has bits 15, 13 and 0; ShiftByCases is the usual reading.) */
  function Shift(s: Reg): Reg { Reg(ShiftWord(s.word)) }

  function ShiftWord(w: bv16): bv16 {
    (w >> 1) ^ ((w & 1) << 15) ^ ((w & 1) << 13) ^ (w & 1)
  }

  function Unshift(s: Reg): Reg {
    var carry := s.word >> 15;
    Reg((s.word << 1) ^ (carry << 14) ^ (carry << 1) ^ carry)
  }

  lemma ShiftByCases(s: Reg)
    ensures Shift(s) == if Low(s) then Add(Half(s), POLYNOMIAL) else Half(s)
  {
    ShiftWordByCases(s.word);
    hide ShiftWord;
  }

  lemma ShiftWordByCases(w: bv16)
    ensures ShiftWord(w) == if w & 1 == 1 then (w >> 1) ^ 0xA001 else w >> 1
  {
    OnesShifted(w & 1);
    if w & 1 != 1 {
      assert w & 1 == 0;
    }
  }

  lemma OnesShifted(one: bv16)
    ensures one == 1 ==> (one << 15) ^ (one << 13) ^ one == 0xA001
  {}

  lemma AddLaws(a: Reg, b: Reg)
    ensures Add(a, ZERO) == a && Add(ZERO, a) == a && Add(a, a) == ZERO && Add(a, b) == Add(b, a)
  {}

  lemma AddAssociative(a: Reg, b: Reg, c: Reg)
    ensures Add(Add(a, b), c) == Add(a, Add(b, c))
  {}

  lemma AddTwice(a: Reg, b: Reg)
    ensures Add(Add(a, b), b) == a
  {}

  lemma AddZeroIff(a: Reg, b: Reg)
    ensures Add(a, b) == ZERO <==> a == b
  {
    AddLaws(a, b);
    AddLaws(b, b);
    AddTwice(a, b);
    hide Add;
  }

  lemma AddSwap(a: Reg, b: Reg, c: Reg, d: Reg)
    ensures Add(Add(a, b), Add(c, d)) == Add(Add(a, c), Add(b, d))
  {}

  lemma ShiftLinear(a: Reg, b: Reg)
    ensures Shift(Add(a, b)) == Add(Shift(a), Shift(b))
  {}

  lemma ShiftInverse(s: Reg)
    ensures Unshift(Shift(s)) == s && Shift(Unshift(s)) == s
  {}

  lemma ShiftZero()
    ensures Shift(ZERO) == ZERO && Unshift(ZERO) == ZERO
  {}

  lemma HalfLinear(a: Reg, b: Reg)
    ensures Half(Add(a, b)) == Add(Half(a), Half(b))
  {}

  lemma LowLinear(a: Reg, b: Reg)
    ensures Low(Add(a, b)) == (Low(a) != Low(b))
  {
    var x, y := a.word, b.word;
    if x & 1 == 1 {
      if y & 1 == 1 { assert (x ^ y) & 1 == 0; } else { assert (x ^ y) & 1 == 1; }
    } else {
      if y & 1 == 1 { assert (x ^ y) & 1 == 1; } else { assert (x ^ y) & 1 == 0; }
    }
  }

  // ---- The checksum, byte by byte ----

  function Clock(s: Reg, k: nat): Reg {
    if k == 0 then s else Shift(Clock(s, k - 1))
  }

  /** A byte is folded into the low half of the register, which is then clocked eight times. */
  function ByteStep(s: Reg, b: bv8): Reg {
    Clock(Add(s, Reg(b as bv16)), 8)
  }

  function CrcFrom(s: Reg, bytes: seq<bv8>): Reg {
    if |bytes| == 0 then s else ByteStep(CrcFrom(s, bytes[..|bytes| - 1]), bytes[|bytes| - 1])
  }

  /** The checksum of a buffer: the register is seeded with all ones. */
  function Crc(bytes: seq<bv8>): bv16 {
    CrcFrom(Reg(0xFFFF), bytes).word
  }

  lemma {:induction false} CrcFromConcat(s: Reg, a: seq<bv8>, b: seq<bv8>)
    ensures CrcFrom(s, a + b) == CrcFrom(CrcFrom(s, a), b)
    decreases |b|
  {
    hide ByteStep;
    if |b| == 0 {
      assert a + b == a;
    } else {
      var front := b[..|b| - 1];
      assert (a + b)[..|a + b| - 1] == a + front;
      CrcFromConcat(s, a, front);
    }
  }

  // ---- The same register, one bit at a time ----

  function Inject(bit: bool): Reg { if bit then ONE else ZERO }

  function Feed(s: Reg, bit: bool): Reg {
    Shift(Add(s, Inject(bit)))
  }

  function Run(s: Reg, bits: seq<bool>): Reg {
    if |bits| == 0 then s else Feed(Run(s, bits[..|bits| - 1]), bits[|bits| - 1])
  }

  /** The k lowest bits of a word, least significant first: the order on the wire. */
  function WordBits(n: Reg, k: nat): (bits: seq<bool>)
    ensures |bits| == k
    decreases k
  {
    if k == 0 then [] else [Low(n)] + WordBits(Half(n), k - 1)
  }

  /** What is left of a word once its k lowest bits are gone. */
  function WordRest(n: Reg, k: nat): Reg
    decreases k
  {
    if k == 0 then n else WordRest(Half(n), k - 1)
  }

  function ByteBits(b: bv8): (bits: seq<bool>)
    ensures |bits| == 8
  {
    WordBits(Reg(b as bv16), 8)
  }

  function FrameBits(frame: seq<bv8>): (bits: seq<bool>)
    ensures |bits| == 8 * |frame|
  {
    if |frame| == 0 then [] else FrameBits(frame[..|frame| - 1]) + ByteBits(frame[|frame| - 1])
  }

  lemma {:induction false} FrameBitAt(frame: seq<bv8>, i: nat, j: nat)
    requires i < |frame| && j < 8
    ensures FrameBits(frame)[8 * i + j] == ByteBits(frame[i])[j]
    decreases |frame|
  {
    hide ByteBits;
    if i < |frame| - 1 {
      FrameBitAt(frame[..|frame| - 1], i, j);
    }
  }

  lemma {:induction false} RestPlus(n: Reg, j: nat, k: nat)
    ensures WordRest(n, j + k) == WordRest(WordRest(n, j), k)
    decreases j
  {
    hide Half;
    if j > 0 {
      RestPlus(Half(n), j - 1, k);
    }
  }

  lemma RestFour(n: Reg)
    ensures WordRest(n, 4) == Reg(n.word >> 4)
  {
    assert WordRest(Half(Half(n)), 2) == Half(Half(Half(Half(n))));
  }

  lemma RestEight(n: Reg)
    ensures WordRest(n, 8) == Reg(n.word >> 8)
  {
    hide WordRest;
    RestFour(n);
    RestFour(Reg(n.word >> 4));
    RestPlus(n, 4, 4);
  }

  /** A word has sixteen bits. */
  lemma NoRest(n: Reg)
    ensures WordRest(n, 16) == ZERO
  {
    hide WordRest;
    RestEight(n);
    RestEight(Reg(n.word >> 8));
    RestPlus(n, 8, 8);
    assert (n.word >> 8) >> 8 == 0;
  }

  lemma ByteRest(b: bv8)
    ensures WordRest(Reg(b as bv16), 8) == ZERO
  {
    hide WordRest;
    RestEight(Reg(b as bv16));
    assert (b as bv16) >> 8 == 0;
  }

  lemma HalfAndLow(m: Reg, n: Reg)
    requires Half(m) == Half(n) && Low(m) == Low(n)
    ensures m == n
  {
    assert m.word & 1 == 1 || m.word & 1 == 0;
    assert n.word & 1 == 1 || n.word & 1 == 0;
    assert m.word == ((m.word >> 1) << 1) ^ (m.word & 1);
    assert n.word == ((n.word >> 1) << 1) ^ (n.word & 1);
  }

  lemma {:induction false} WordBitsInjective(m: Reg, n: Reg, k: nat)
    requires WordBits(m, k) == WordBits(n, k) && WordRest(m, k) == WordRest(n, k)
    ensures m == n
    decreases k
  {
    hide Half, Low;
    if k > 0 {
      var x, y := WordBits(Half(m), k - 1), WordBits(Half(n), k - 1);
      assert ([Low(m)] + x)[0] == ([Low(n)] + y)[0];
      assert ([Low(m)] + x)[1..] == x && ([Low(n)] + y)[1..] == y;
      WordBitsInjective(Half(m), Half(n), k - 1);
      HalfAndLow(m, n);
    }
  }

  lemma ByteBitsInjective(a: bv8, b: bv8)
    requires ByteBits(a) == ByteBits(b)
    ensures a == b
  {
    ByteRest(a);
    ByteRest(b);
    WordBitsInjective(Reg(a as bv16), Reg(b as bv16), 8);
  }

  lemma {:induction false} RunConcat(s: Reg, a: seq<bool>, b: seq<bool>)
    ensures Run(s, a + b) == Run(Run(s, a), b)
    decreases |b|
  {
    hide Feed;
    if |b| == 0 {
      assert a + b == a;
    } else {
      var front := b[..|b| - 1];
      assert (a + b)[..|a + b| - 1] == a + front;
      RunConcat(s, a, front);
    }
  }

  lemma RunCons(s: Reg, b: bool, bits: seq<bool>)
    ensures Run(s, [b] + bits) == Run(Feed(s, b), bits)
  {
    hide Feed;
    RunConcat(s, [b], bits);
    assert [b][..0] == [] && Run(s, []) == s;
  }

  /** Clocking with a whole word folded in feeds its lowest bit and leaves the rest waiting. */
  lemma ShiftFeeds(s: Reg, n: Reg)
    ensures Shift(Add(s, n)) == Add(Feed(s, Low(n)), Half(n))
  {
    hide Add, Shift, Half, Low, Inject;
    EvenPart(n);
    ShiftEven(n);
    AddAssociative(s, Inject(Low(n)), Even(n));
    ShiftLinear(Add(s, Inject(Low(n))), Even(n));
  }

  function Even(n: Reg): Reg { Reg(n.word & 0xFFFE) }

  lemma ShiftEven(n: Reg)
    ensures Shift(Even(n)) == Half(n)
  {}

  lemma EvenPart(n: Reg)
    ensures Add(Inject(Low(n)), Even(n)) == n
  {
    if Low(n) {
      EvenPartOdd(n.word);
    } else {
      EvenPartEven(n.word);
    }
  }

  lemma EvenPartOdd(x: bv16)
    requires x & 1 == 1
    ensures 1 ^ (x & 0xFFFE) == x
  {}

  lemma EvenPartEven(x: bv16)
    requires x & 1 != 1
    ensures 0 ^ (x & 0xFFFE) == x
  {}

  lemma {:induction false} ClockCons(s: Reg, k: nat)
    ensures Clock(s, k + 1) == Clock(Shift(s), k)
    decreases k
  {
    hide Shift;
    if k > 0 {
      ClockCons(s, k - 1);
    }
  }

  /** Folding a word in and clocking k times feeds its k lowest bits and leaves the rest waiting. */
  lemma {:induction false} ClockFeeds(s: Reg, n: Reg, k: nat)
    ensures Clock(Add(s, n), k) == Add(Run(s, WordBits(n, k)), WordRest(n, k))
    decreases k
  {
    hide Add, Shift, Feed, Half, Low;
    if k > 0 {
      ShiftFeeds(s, n);
      ClockCons(Add(s, n), k - 1);
      ClockFeeds(Feed(s, Low(n)), Half(n), k - 1);
      RunCons(s, Low(n), WordBits(Half(n), k - 1));
    }
  }

  /** Feeding the eight bits of a byte is folding the byte in and clocking eight times. */
  lemma RunByte(s: Reg, b: bv8)
    ensures Run(s, ByteBits(b)) == ByteStep(s, b)
  {
    hide Add, Run, WordBits, WordRest, Clock;
    var n := Reg(b as bv16);
    ClockFeeds(s, n, 8);
    ByteRest(b);
    AddLaws(Run(s, ByteBits(b)), ZERO);
  }

  /** The byte-wise checksum is the bit-wise one. */
  lemma {:induction false} CrcIsRun(s: Reg, frame: seq<bv8>)
    ensures CrcFrom(s, frame) == Run(s, FrameBits(frame))
    decreases |frame|
  {
    hide Run, ByteStep, ByteBits;
    if |frame| > 0 {
      var front, last := frame[..|frame| - 1], frame[|frame| - 1];
      CrcIsRun(s, front);
      RunConcat(s, FrameBits(front), ByteBits(last));
      RunByte(CrcFrom(s, front), last);
    } else {
      RunNothing(s);
    }
  }

  lemma RunNothing(s: Reg)
    ensures Run(s, []) == s
  {}

  // ---- Superposition ----

  function Difference(a: seq<bool>, b: seq<bool>): (d: seq<bool>)
    requires |a| == |b|
    ensures |d| == |a|
  {
    seq(|a|, i requires 0 <= i < |a| => a[i] != b[i])
  }

  lemma FeedLinear(s: Reg, t: Reg, a: bool, b: bool)
    ensures Feed(Add(s, t), a != b) == Add(Feed(s, a), Feed(t, b))
  {
    assert Inject(a != b) == Add(Inject(a), Inject(b));
    hide Add, Shift, Inject;
    AddSwap(s, t, Inject(a), Inject(b));
    ShiftLinear(Add(s, Inject(a)), Add(t, Inject(b)));
  }

  /** The register's response to a difference is the difference of its responses. */
  lemma {:induction false} RunLinear(s: Reg, t: Reg, a: seq<bool>, b: seq<bool>)
    requires |a| == |b|
    ensures Run(Add(s, t), Difference(a, b)) == Add(Run(s, a), Run(t, b))
    decreases |a|
  {
    hide Add, Feed;
    if |a| > 0 {
      var n := |a| - 1;
      var d := Difference(a, b);
      assert d[..n] == Difference(a[..n], b[..n]);
      assert d[n] == (a[n] != b[n]);
      RunLinear(s, t, a[..n], b[..n]);
      FeedLinear(Run(s, a[..n]), Run(t, b[..n]), a[n], b[n]);
    }
  }

  // ---- Quiet stretches: clocking without input ----

  lemma {:induction false} ClockPlus(s: Reg, m: nat, n: nat)
    ensures Clock(s, m + n) == Clock(Clock(s, m), n)
    decreases n
  {
    hide Shift;
    if n > 0 {
      ClockPlus(s, m, n - 1);
    }
  }

  lemma {:induction false} ClockZero(s: Reg, n: nat)
    ensures Clock(s, n) == ZERO <==> s == ZERO
    decreases n
  {
    hide Shift, Unshift;
    if n > 0 {
      ClockZero(s, n - 1);
      ShiftZero();
      ShiftInverse(Clock(s, n - 1));
    }
  }

  lemma {:induction false} ClockLinear(a: Reg, b: Reg, n: nat)
    ensures Clock(Add(a, b), n) == Add(Clock(a, n), Clock(b, n))
    decreases n
  {
    hide Add, Shift;
    if n > 0 {
      ClockLinear(a, b, n - 1);
      ShiftLinear(Clock(a, n - 1), Clock(b, n - 1));
    }
  }

  lemma {:induction false} ClockInjective(a: Reg, b: Reg, n: nat)
    requires Clock(a, n) == Clock(b, n)
    ensures a == b
    decreases n
  {
    hide Shift, Unshift;
    if n > 0 {
      ShiftInverse(Clock(a, n - 1));
      ShiftInverse(Clock(b, n - 1));
      ClockInjective(a, b, n - 1);
    }
  }

  predicate AllQuiet(bits: seq<bool>) { forall i :: 0 <= i < |bits| ==> !bits[i] }

  lemma {:induction false} RunQuiet(s: Reg, bits: seq<bool>)
    requires AllQuiet(bits)
    ensures Run(s, bits) == Clock(s, |bits|)
    decreases |bits|
  {
    hide Shift;
    if |bits| > 0 {
      RunQuiet(s, bits[..|bits| - 1]);
    }
  }
}
