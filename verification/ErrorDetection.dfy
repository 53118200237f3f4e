/** Which bit errors can leave the checksum register in the same state, for streams of every
    length: no burst of up to sixteen consecutive bits, and no odd number of errors. */
module ErrorDetection {
  import opened Crc16

  /** Two streams of one length end in the same state exactly when their difference, fed to an
      empty register, ends in zero. */
  lemma SameStateIffDifferenceSilent(s: Reg, a: seq<bool>, b: seq<bool>)
    requires |a| == |b|
    ensures Run(s, a) == Run(s, b) <==> Run(ZERO, Difference(a, b)) == ZERO
  {
    AddLaws(s, s);
    AddZeroIff(Run(s, a), Run(s, b));
    hide Add, Run;
    RunLinear(s, s, a, b);
  }

  /** Nothing happens before the first error and nothing is undone after the last one. */
  lemma OnlyTheMiddleMatters(before: seq<bool>, middle: seq<bool>, after: seq<bool>)
    requires AllQuiet(before) && AllQuiet(after)
    ensures Run(ZERO, before + middle + after) == ZERO <==> Run(ZERO, middle) == ZERO
  {
    hide Run, Clock;
    RunConcat(ZERO, before + middle, after);
    RunConcat(ZERO, before, middle);
    RunQuiet(ZERO, before);
    ClockZero(ZERO, |before|);
    RunQuiet(Run(ZERO, middle), after);
    ClockZero(Run(ZERO, middle), |after|);
  }

  lemma FirstError(d: seq<bool>) returns (p: nat)
    requires !AllQuiet(d)
    ensures p < |d| && d[p] && AllQuiet(d[..p])
  {
    p := 0;
    while !d[p]
      invariant p < |d| && AllQuiet(d[..p])
      invariant exists i :: p <= i < |d| && d[i]
      decreases |d| - p
    {
      p := p + 1;
    }
  }

  lemma DifferenceIsHeard(a: seq<bool>, b: seq<bool>)
    requires |a| == |b| && a != b
    ensures !AllQuiet(Difference(a, b))
  {
    var i :| 0 <= i < |a| && a[i] != b[i];
    assert Difference(a, b)[i];
  }

  // ---- Bursts ----

  /** A state with a bit set under LiveMask(k) cannot die within k further bits. */
  function LiveMask(k: nat): Reg
    requires k <= 15
  {
    Reg([0xFFFF, 0xFFFE, 0xFFFC, 0xFFF8, 0xFFF0, 0xFFE0, 0xFFC0, 0xFF80,
         0xFF00, 0xFE00, 0xFC00, 0xF800, 0xF000, 0xE000, 0xC000, 0x8000][k])
  }

  predicate Meets(s: Reg, m: Reg) { s.word & m.word != 0 }

  function Double(m: Reg): Reg { Reg(m.word << 1) }

  predicate Live(s: Reg, k: nat)
    requires k <= 15
  {
    Meets(s, LiveMask(k))
  }

  lemma LiveMaskStep(k: nat)
    requires 1 <= k <= 15
    ensures LiveMask(k) == Double(LiveMask(k - 1)) && Meets(Reg(0x8000), LiveMask(k - 1))
  {}

  lemma ShiftStillMeets(s: bv16, m: bv16)
    requires s & (m << 1) != 0 && 0x8000 & m != 0
    ensures Shift(Reg(s)).word & m != 0 && Shift(Reg(s ^ 1)).word & m != 0
  {}

  lemma FeedByCases(s: Reg, b: bool)
    ensures Feed(s, b) == if b then Shift(Reg(s.word ^ 1)) else Shift(Reg(s.word))
  {
    if !b {
      AddLaws(s, ZERO);
    }
  }

  lemma FeedStillMeets(s: Reg, b: bool, m: Reg)
    requires Meets(s, Double(m)) && Meets(Reg(0x8000), m)
    ensures Meets(Feed(s, b), m)
  {
    hide Shift, Feed;
    FeedByCases(s, b);
    ShiftStillMeets(s.word, m.word);
  }

  lemma FeedStaysLive(s: Reg, b: bool, k: nat)
    requires 1 <= k <= 15 && Live(s, k)
    ensures Live(Feed(s, b), k - 1)
  {
    hide Meets, Double, Feed, LiveMask;
    LiveMaskStep(k);
    FeedStillMeets(s, b, LiveMask(k - 1));
  }

  lemma {:induction false} BurstSurvives(s: Reg, bits: seq<bool>)
    requires |bits| <= 15 && Live(s, 15)
    ensures Live(Run(s, bits), 15 - |bits|)
    decreases |bits|
  {
    hide Feed, Live;
    if |bits| > 0 {
      var n := |bits| - 1;
      BurstSurvives(s, bits[..n]);
      FeedStaysLive(Run(s, bits[..n]), bits[n], 15 - n);
    }
  }

  lemma LiveIsNotZero(s: Reg, k: nat)
    requires k <= 15 && Live(s, k)
    ensures s != ZERO
  {
    hide LiveMask;
    assert 0 & LiveMask(k).word == 0;
  }

  lemma FirstErrorIsLive()
    ensures Live(Feed(ZERO, true), 15)
  {}

  /** An error pattern of at most sixteen bits that starts with an error is never silent. */
  lemma BurstIsHeard(burst: seq<bool>)
    requires 1 <= |burst| <= 16 && burst[0]
    ensures Run(ZERO, burst) != ZERO
  {
    hide Run, Feed, Live;
    var rest := burst[1..];
    assert burst == [true] + rest;
    RunCons(ZERO, true, rest);
    FirstErrorIsLive();
    BurstSurvives(Feed(ZERO, true), rest);
    LiveIsNotZero(Run(ZERO, burst), 15 - |rest|);
  }

  /** All positions at which a and b differ lie in the window [p, p + w). */
  ghost predicate DifferOnlyIn(a: seq<bool>, b: seq<bool>, p: nat, w: nat)
    requires |a| == |b|
  {
    forall i :: 0 <= i < |a| && a[i] != b[i] ==> p <= i < p + w
  }

  lemma BurstChangesState(s: Reg, a: seq<bool>, b: seq<bool>, p: nat)
    requires |a| == |b| && a != b && DifferOnlyIn(a, b, p, 16)
    ensures Run(s, a) != Run(s, b)
  {
    hide Run;
    var d := Difference(a, b);
    DifferenceIsHeard(a, b);
    var q := FirstError(d);
    var end := if q + 16 <= |d| then q + 16 else |d|;
    assert AllQuiet(d[end..]);
    assert d == d[..q] + d[q..end] + d[end..];
    OnlyTheMiddleMatters(d[..q], d[q..end], d[end..]);
    BurstIsHeard(d[q..end]);
    SameStateIffDifferenceSilent(s, a, b);
  }

  // ---- Parity ----

  /** Parity of the k lowest bits of a word. */
  function Parity(s: Reg, k: nat): bool
    decreases k
  {
    if k == 0 then false else Low(s) != Parity(Half(s), k - 1)
  }

  lemma {:induction false} ParityLinear(a: Reg, b: Reg, k: nat)
    ensures Parity(Add(a, b), k) == (Parity(a, k) != Parity(b, k))
    decreases k
  {
    hide Add, Half, Low;
    if k > 0 {
      HalfLinear(a, b);
      LowLinear(a, b);
      ParityLinear(Half(a), Half(b), k - 1);
    }
  }

  lemma {:induction false} ParityOneMore(s: Reg, k: nat)
    ensures Parity(s, k + 1) == (Parity(s, k) != Low(WordRest(s, k)))
    decreases k
  {
    hide Half, Low;
    if k > 0 {
      ParityOneMore(Half(s), k - 1);
    } else {
      assert Parity(Half(s), 0) == false;
    }
  }

  lemma HalfRest(s: Reg)
    ensures WordRest(Half(s), 15) == ZERO
  {
    hide Half;
    NoRest(s);
    assert WordRest(s, 16) == WordRest(Half(s), 15);
  }

  lemma {:induction false} ParityOfZero(k: nat)
    ensures !Parity(ZERO, k)
    decreases k
  {
    if k > 0 {
      assert Half(ZERO) == ZERO;
      ParityOfZero(k - 1);
    }
  }

  lemma ParityOfOne()
    ensures Parity(ONE, 16)
  {
    assert Half(ONE) == ZERO;
    ParityOfZero(15);
  }

  lemma ParityOfPolynomial()
    ensures Parity(POLYNOMIAL, 16)
  {
    assert Parity(Reg(0x0005), 3) == (true != Parity(Reg(0x0002), 2));
    assert Parity(Reg(0x0500), 11) == Parity(Reg(0x0005), 3);
    assert Parity(Reg(0xA001), 16) == (true != Parity(Reg(0x5000), 15));
  }

  /** The bit that falls out is replaced by the three bits of the polynomial. */
  lemma ShiftParity(s: Reg)
    ensures Parity(Shift(s), 16) == Parity(s, 16)
  {
    ShiftByCases(s);
    assert Parity(s, 16) == (Low(s) != Parity(Half(s), 15));
    hide Shift, Add, Half, Low, Parity, WordRest;
    ParityOneMore(Half(s), 15);
    HalfRest(s);
    ParityLinear(Half(s), POLYNOMIAL, 16);
    ParityOfPolynomial();
  }

  lemma FeedParity(s: Reg, b: bool)
    ensures Parity(Feed(s, b), 16) == (Parity(s, 16) != b)
  {
    hide Shift, Add, Parity;
    ShiftParity(Add(s, Inject(b)));
    ParityLinear(s, Inject(b), 16);
    ParityOfOne();
    ParityOfZero(16);
  }

  /** How many of the bits are set. */
  function Weight(bits: seq<bool>): nat {
    if |bits| == 0 then 0
    else Weight(bits[..|bits| - 1]) + if bits[|bits| - 1] then 1 else 0
  }

  /** The register keeps the parity of everything it has been fed. */
  lemma {:induction false} RunParity(s: Reg, bits: seq<bool>)
    ensures Parity(Run(s, bits), 16) == (Parity(s, 16) != (Weight(bits) % 2 == 1))
    decreases |bits|
  {
    hide Feed, Parity;
    if |bits| > 0 {
      var n := |bits| - 1;
      RunParity(s, bits[..n]);
      FeedParity(Run(s, bits[..n]), bits[n]);
    }
  }
}
