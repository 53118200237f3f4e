/** What the frame check promises about frames of every length: which altered frames it rejects. */
module FrameErrors {
  import opened Crc16
  import opened ErrorDetection
  import opened Checksum
  import Period

  const SEED := Period.SEED

  // ---- Acceptance is a zero residue ----

  lemma ByteSum(s: Reg, low: bv8, high: bv8)
    ensures Reg((s.word ^ (low as bv16)) & 0xFF00) == Reg((s.word >> 8) << 8)
    ensures Reg((high as bv16) << 8).word & 0xFF == 0 && Reg((high as bv16) << 8).word >> 8 == high as bv16
  {}

  lemma JoinedIsSum(low: bv8, high: bv8)
    ensures Add(Reg((high as bv16) << 8), Reg(low as bv16)) == Reg(Joined(low, high))
  {}

  lemma WireAsWord(s: Reg, low: bv8, high: bv8)
    ensures [low, high] == Wire(s.word) <==> Add(s, Reg(low as bv16)) == Reg((high as bv16) << 8)
  {
    var l, h := Reg(low as bv16), Reg((high as bv16) << 8);
    hide Joined, Wire, Add;
    JoinWire(low, high, s.word);
    JoinedIsSum(low, high);
    AddTwice(s, l);
    AddTwice(h, l);
    assert Reg(s.word) == s;
  }

  /** Two bytes silence the register exactly when they are its two halves, low half first. */
  lemma TwoBytesSilence(s: Reg, low: bv8, high: bv8)
    ensures ByteStep(ByteStep(s, low), high) == ZERO <==> [low, high] == Wire(s.word)
  {
    var t := Add(s, Reg(low as bv16));
    var h := Reg((high as bv16) << 8);
    WireAsWord(s, low, high);
    ByteSum(s, low, high);
    LowByteIsQuiet(h);
    var u := ByteStep(s, low);
    AddZeroIff(u, Reg(high as bv16));
    hide Add, Clock, Wire;
    ClockZero(Add(u, Reg(high as bv16)), 8);
    if u == Reg(high as bv16) {
      ClockInjective(t, h, 8);
    }
  }

  /** A frame of two bytes or more is accepted exactly when its own checksum is zero. */
  lemma AcceptedIffResidueZero(frame: seq<bv8>)
    requires |frame| >= 2
    ensures Accepts(frame) <==> Crc(frame) == 0
  {
    hide ByteStep, Wire;
    var n := |frame| - 2;
    var s := CrcFrom(SEED, frame[..n]);
    assert frame[..n + 1][..n] == frame[..n];
    assert frame[..n + 2][..n + 1] == frame[..n + 1] && frame[..n + 2] == frame;
    assert CrcFrom(SEED, frame[..n + 1]) == ByteStep(s, frame[n]);
    TwoBytesSilence(s, frame[n], frame[n + 1]);
    assert frame[n..] == [frame[n], frame[n + 1]];
  }

  /** Appending a buffer's checksum, low byte first, makes a frame that is accepted. */
  lemma SealedFrameAccepted(payload: seq<bv8>)
    ensures Accepts(payload + Wire(Crc(payload)))
  {
    hide Wire, Crc;
    var frame := payload + Wire(Crc(payload));
    assert |Wire(Crc(payload))| == 2 by { WireLength(Crc(payload)); }
    assert frame[..|frame| - 2] == payload && frame[|frame| - 2..] == Wire(Crc(payload));
  }

  lemma WireLength(crc: bv16)
    ensures |Wire(crc)| == 2
  {}

  // ---- Altered frames ----

  /** The bits in which two frames differ. */
  function Errors(f: seq<bv8>, g: seq<bv8>): (d: seq<bool>)
    requires |f| == |g|
    ensures |d| == 8 * |f|
  {
    Difference(FrameBits(f), FrameBits(g))
  }

  lemma {:induction false} DifferentFramesDifferentBits(f: seq<bv8>, g: seq<bv8>)
    requires |f| == |g| && f != g
    ensures FrameBits(f) != FrameBits(g)
  {
    hide ByteBits;
    var i :| 0 <= i < |f| && f[i] != g[i];
    if ByteBits(f[i]) == ByteBits(g[i]) {
      ByteBitsInjective(f[i], g[i]);
    }
    var j :| 0 <= j < 8 && ByteBits(f[i])[j] != ByteBits(g[i])[j];
    FrameBitAt(f, i, j);
    FrameBitAt(g, i, j);
  }

  /** An altered frame is still accepted exactly when its errors are silent. */
  lemma AlteredAcceptedIffSilent(f: seq<bv8>, g: seq<bv8>)
    requires |f| == |g| && Accepts(f)
    ensures Accepts(g) <==> Run(ZERO, Errors(f, g)) == ZERO
  {
    AcceptedIffResidueZero(f);
    AcceptedIffResidueZero(g);
    hide Run, CrcFrom, Accepts;
    CrcIsRun(SEED, f);
    CrcIsRun(SEED, g);
    SameStateIffDifferenceSilent(SEED, FrameBits(f), FrameBits(g));
    ZeroWord(Run(SEED, FrameBits(f)));
    ZeroWord(Run(SEED, FrameBits(g)));
  }

  lemma ZeroWord(r: Reg)
    ensures r.word == 0 <==> r == ZERO
  {}

  /** Every burst of errors within sixteen consecutive bits, on byte boundaries or across them and
      across the boundary between data and checksum, makes the check reject the frame. */
  lemma BurstRejected(f: seq<bv8>, g: seq<bv8>, p: nat)
    requires |f| == |g| && f != g && Accepts(f)
    requires DifferOnlyIn(FrameBits(f), FrameBits(g), p, 16)
    ensures !Accepts(g)
  {
    hide Run, FrameBits, Accepts;
    var a, b := FrameBits(f), FrameBits(g);
    DifferentFramesDifferentBits(f, g);
    BurstChangesState(SEED, a, b, p);
    SameStateIffDifferenceSilent(SEED, a, b);
    AlteredAcceptedIffSilent(f, g);
  }

  /** Changing one byte, or two neighbouring bytes, anywhere in an accepted frame is always seen. */
  lemma NeighbouringBytesRejected(f: seq<bv8>, g: seq<bv8>, i: nat)
    requires |f| == |g| && f != g && Accepts(f)
    requires forall k :: 0 <= k < |f| && f[k] != g[k] ==> k == i || k == i + 1
    ensures !Accepts(g)
  {
    var a, b := FrameBits(f), FrameBits(g);
    hide Accepts, FrameBits, ByteBits;
    forall k | 0 <= k < |a| && a[k] != b[k]
      ensures 8 * i <= k < 8 * i + 16
    {
      FrameBitAt(f, k / 8, k % 8);
      FrameBitAt(g, k / 8, k % 8);
      assert f[k / 8] != g[k / 8];
    }
    BurstRejected(f, g, 8 * i);
  }

  /** Every accepted frame has an even number of one bits. */
  lemma AcceptedFrameIsEven(f: seq<bv8>)
    requires Accepts(f)
    ensures Weight(FrameBits(f)) % 2 == 0
  {
    AcceptedIffResidueZero(f);
    hide Run, CrcFrom, Parity, Weight;
    CrcIsRun(SEED, f);
    ZeroWord(Run(SEED, FrameBits(f)));
    RunParity(SEED, FrameBits(f));
    ParityOfZero(16);
    SeedIsEven();
  }

  lemma SeedIsEven()
    ensures !Parity(SEED, 16)
  {
    assert Half(Half(Half(Half(Reg(0xF))))) == ZERO;
    assert Parity(Reg(0xF), 4) == Parity(ZERO, 0);
    assert Parity(Reg(0xFF), 8) == Parity(Reg(0xF), 4);
    assert Parity(Reg(0xFFF), 12) == Parity(Reg(0xFF), 8);
    assert Parity(Reg(0xFFFF), 16) == Parity(Reg(0xFFF), 12);
  }

  lemma SilentErrorsAreEven(d: seq<bool>)
    requires Run(ZERO, d) == ZERO
    ensures Weight(d) % 2 == 0
  {
    hide Run, Parity, Weight;
    RunParity(ZERO, d);
    ParityOfZero(16);
  }

  /** Any odd number of bit flips is seen. */
  lemma OddFlipsRejected(f: seq<bv8>, g: seq<bv8>)
    requires |f| == |g| && Accepts(f) && Weight(Errors(f, g)) % 2 == 1
    ensures !Accepts(g)
  {
    hide Run, Accepts, Weight, Errors;
    AlteredAcceptedIffSilent(f, g);
    if Accepts(g) {
      SilentErrorsAreEven(Errors(f, g));
    }
  }

  // ---- Two errors ----

  /** The errors are exactly the two positions p and q. */
  predicate ExactlyTwo(d: seq<bool>, p: nat, q: nat) {
    && p < q < |d|
    && forall i :: 0 <= i < |d| ==> (d[i] <==> i == p || i == q)
  }

  lemma TwoErrorsTrace(d: seq<bool>, n: nat)
    requires n > 0 && |d| == n + 1 && ExactlyTwo(d, 0, n)
    ensures Run(ZERO, d) == ZERO <==> Period.Power(n) == ONE
  {
    hide Shift, Unshift, Add, Run, Clock;
    var gap := d[1..n];
    assert d == [true] + (gap + [true]);
    AddLaws(ONE, ZERO);
    RunCons(ZERO, true, gap + [true]);
    var s := Shift(ONE);
    assert Feed(ZERO, true) == s;
    RunConcat(s, gap, [true]);
    RunQuiet(s, gap);
    ClockCons(ONE, n - 1);
    var t := Period.Power(n);
    assert Run(s, gap) == t;
    RunOne(t, true);
    ShiftZero();
    ShiftInverse(Add(t, ONE));
    AddZeroIff(t, ONE);
  }

  lemma RunOne(s: Reg, b: bool)
    ensures Run(s, [b]) == Feed(s, b)
  {
    hide Feed;
    assert [b][..0] == [] && Run(s, []) == s;
  }

  /** Two bit errors cancel exactly when they are a multiple of 32767 bits apart. */
  lemma TwoErrorsSilentIff(d: seq<bool>, p: nat, q: nat)
    requires ExactlyTwo(d, p, q)
    ensures Run(ZERO, d) == ZERO <==> (q - p) % 32767 == 0
  {
    hide Run;
    assert d == d[..p] + d[p..q + 1] + d[q + 1..];
    OnlyTheMiddleMatters(d[..p], d[p..q + 1], d[q + 1..]);
    TwoErrorsTrace(d[p..q + 1], q - p);
    Period.PeriodExact(q - p);
  }

  lemma TwoFlipsAcceptedIff(f: seq<bv8>, g: seq<bv8>, p: nat, q: nat)
    requires |f| == |g| && Accepts(f) && ExactlyTwo(Errors(f, g), p, q)
    ensures Accepts(g) <==> (q - p) % 32767 == 0
  {
    hide Run, Accepts, Errors;
    AlteredAcceptedIffSilent(f, g);
    TwoErrorsSilentIff(Errors(f, g), p, q);
  }

  lemma {:induction false} WeightZeroIsQuiet(d: seq<bool>)
    requires Weight(d) == 0
    ensures AllQuiet(d)
    decreases |d|
  {
    if |d| > 0 {
      WeightZeroIsQuiet(d[..|d| - 1]);
    }
  }

  lemma {:induction false} WeightOne(d: seq<bool>) returns (p: nat)
    requires Weight(d) == 1
    ensures p < |d| && forall i :: 0 <= i < |d| ==> (d[i] <==> i == p)
    decreases |d|
  {
    var n := |d| - 1;
    if d[n] {
      WeightZeroIsQuiet(d[..n]);
      p := n;
    } else {
      p := WeightOne(d[..n]);
    }
  }

  lemma {:induction false} WeightTwo(d: seq<bool>) returns (p: nat, q: nat)
    requires Weight(d) == 2
    ensures ExactlyTwo(d, p, q)
    decreases |d|
  {
    var n := |d| - 1;
    if d[n] {
      p := WeightOne(d[..n]);
      q := n;
    } else {
      p, q := WeightTwo(d[..n]);
    }
  }

  /** Two different accepted frames of at most 4095 bytes differ in at least four bits: the check
      sees every error of one, two or three bits. */
  lemma AcceptedFramesDifferInFourBits(f: seq<bv8>, g: seq<bv8>)
    requires |f| == |g| <= 4095 && f != g && Accepts(f) && Accepts(g)
    ensures Weight(Errors(f, g)) >= 4
  {
    hide Run, Accepts, FrameBits;
    var d := Errors(f, g);
    AlteredAcceptedIffSilent(f, g);
    SilentErrorsAreEven(d);
    DifferentFramesDifferentBits(f, g);
    DifferenceIsHeard(FrameBits(f), FrameBits(g));
    if Weight(d) == 0 {
      WeightZeroIsQuiet(d);
    } else if Weight(d) == 2 {
      var p, q := WeightTwo(d);
      TwoErrorsSilentIff(d, p, q);
    }
  }

  // ---- The seed: leading zeros ----

  /** Streams that end together began together. */
  lemma SameEndSameStart(s: Reg, t: Reg, bits: seq<bool>)
    ensures Run(s, bits) == Run(t, bits) <==> s == t
  {
    hide Run, Clock, Add;
    var quiet := Difference(bits, bits);
    RunLinear(s, t, bits, bits);
    RunQuiet(Add(s, t), quiet);
    ClockZero(Add(s, t), |quiet|);
    AddZeroIff(s, t);
    AddZeroIff(Run(s, bits), Run(t, bits));
  }

  function Zeros(k: nat): (z: seq<bv8>)
    ensures |z| == k
  {
    seq(k, _ => 0)
  }

  lemma ZeroByteQuiet()
    ensures AllQuiet(ByteBits(0))
  {
    hide ByteBits;
    forall j | 0 <= j < 8
      ensures !ByteBits(0)[j]
    {
      ZeroBits(8, j);
      assert ByteBits(0) == WordBits(ZERO, 8) by { ByteBitsAre(0); }
    }
  }

  lemma ByteBitsAre(b: bv8)
    ensures ByteBits(b) == WordBits(Reg(b as bv16), 8)
  {}

  lemma {:induction false} ZeroBits(k: nat, j: nat)
    requires j < k
    ensures !WordBits(ZERO, k)[j]
    decreases k
  {
    assert Half(ZERO) == ZERO && !Low(ZERO);
    if j > 0 {
      ZeroBits(k - 1, j - 1);
    }
  }

  lemma ZerosRun(s: Reg, k: nat)
    ensures CrcFrom(s, Zeros(k)) == Clock(s, 8 * k)
  {
    var bits := FrameBits(Zeros(k));
    hide Clock, Run, FrameBits, ByteBits, CrcFrom;
    CrcIsRun(s, Zeros(k));
    ZeroByteQuiet();
    forall i | 0 <= i < 8 * k
      ensures !bits[i]
    {
      FrameBitAt(Zeros(k), i / 8, i % 8);
    }
    RunQuiet(s, bits);
  }

  /** Zero bytes put before an accepted frame are noticed, unless they are a multiple of 32767: the
      register starts with all ones and is back there only after that many bytes. */
  lemma LeadingZerosAcceptedIff(f: seq<bv8>, k: nat)
    requires Accepts(f)
    ensures Accepts(Zeros(k) + f) <==> k % 32767 == 0
  {
    var bits, t := FrameBits(f), Clock(SEED, 8 * k);
    hide Clock, Run, FrameBits, CrcFrom, Accepts;
    assert |f| >= 2 by { AtLeastTwo(f); }
    AcceptedIffResidueZero(f);
    AcceptedIffResidueZero(Zeros(k) + f);
    CrcFromConcat(SEED, Zeros(k), f);
    ZerosRun(SEED, k);
    CrcIsRun(SEED, f);
    CrcIsRun(t, f);
    ZeroWord(Run(SEED, bits));
    ZeroWord(Run(t, bits));
    SameEndSameStart(SEED, t, bits);
    Period.SeedPeriodExact(8 * k);
    EightTimes(k);
  }

  lemma AtLeastTwo(f: seq<bv8>)
    requires Accepts(f)
    ensures |f| >= 2
  {}

  lemma EightTimes(k: nat)
    ensures 8 * k % 32767 == 0 <==> k % 32767 == 0
  {
    if 8 * k % 32767 == 0 {
      var q := 8 * k / 32767;
      assert k == 32767 * (4096 * q - k);
      Multiple(4096 * q - k);
    } else if k % 32767 == 0 {
      assert 8 * k == 32767 * (8 * (k / 32767));
      Multiple(8 * (k / 32767));
    }
  }

  lemma Multiple(m: int)
    ensures 32767 * m % 32767 == 0
  {}

  /** The checksum of nothing is the seed: two bytes alone are accepted only when both are 0xFF. */
  lemma ShortestFrame(low: bv8, high: bv8)
    ensures Accepts([low, high]) <==> low == 0xFF && high == 0xFF
  {
    assert [low, high][..0] == [] && [low, high][0..] == [low, high];
    assert Crc([]) == 0xFFFF;
    assert Wire(0xFFFF) == [0xFF, 0xFF];
  }

  /** The firmware's status request, one byte 0x11, goes out as 0x11 0x7F 0x4C. */
  lemma StatusRequest()
    ensures Wire(Crc([0x11])) == [0x7F, 0x4C]
  {
    assert [0x11][..0] == [];
    assert Add(SEED, Reg(0x11)) == Reg(0xFFEE);
    assert CrcFrom(SEED, [0x11]) == Clock(Reg(0xFFEE), 8);
    EightClocks();
    hide Clock, ByteStep;
  }

  lemma EightClocks()
    ensures Clock(Reg(0xFFEE), 8) == Reg(0x4C7F)
  {
    ClockEight(Reg(0xFFEE));
  }
}
